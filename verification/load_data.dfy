/**
 * The GTFS loader (api/src/load-data.ts): the CSV reader, the table
 * definitions and the inserts, with SQLite reduced to what the loader relies
 * on: a table per file, every column text, an optional single-column primary
 * key that rejects a row repeating an existing non-null key.
 */
module LoadData {
  import opened Wrappers
  import opened TextOrder
  import opened Ordering
  import opened JsStrings

  /** The feed files loaded, in loading order. */
  const GtfsFiles: seq<Str> := ["agency.txt", "stops.txt", "routes.txt", "trips.txt", "stop_times.txt", "calendar.txt"]

  /** `fileName.replace('.txt', '')`: the first `.txt` removed, any later one kept. */
  function TableName(fileName: Str): (r: Str)
    ensures !Contains(fileName, ".txt") ==> r == fileName
    ensures Contains(fileName, ".txt") ==> ReplacedFirst(r, fileName, ".txt", "")
  {
    ReplaceFirst(fileName, ".txt", "")
  }

  /** A base name without a dot loses exactly its `.txt` extension. */
  lemma TableNameOfTxt(base: Str)
    requires '.' !in base
    ensures TableName(base + ".txt") == base
  {
    forall i | 0 <= i < |base|
      ensures !(".txt" <= (base + ".txt")[i..])
    {
      assert (base + ".txt")[i..][0] == base[i];
    }
    ReplaceFirstSuffix(base, ".txt");
  }

  /** Only the first extension goes: a doubled `.txt` leaves one behind. */
  lemma TableNameKeepsSecondTxt(base: Str)
    requires '.' !in base
    ensures TableName(base + ".txt" + ".txt") == base + ".txt"
  {
    var ext := ".txt";
    var s := base + ext + ext;
    assert s[|base|..] == ext + ext;
    forall j | 0 <= j < |base|
      ensures !(ext <= s[j..])
    {
      assert s[j..][0] == base[j];
    }
    assert FirstAt(s, ext, |base|);
    assert Contains(s, ext);
    var i :| FirstAt(s, ext, i) && TableName(s) == s[..i] + "" + s[i + 4..];
    FirstAtUnique(s, ext, i, |base|);
    assert s[..|base|] == base && s[|base| + 4..] == ext;
  }

  /** The tables the feed files fill, in loading order. */
  const GtfsTables: seq<Str> := ["agency", "stops", "routes", "trips", "stop_times", "calendar"]

  /** The six feed files give the six table names the queries use. */
  lemma GtfsTableNames()
    ensures |GtfsTables| == |GtfsFiles|
    ensures forall i :: 0 <= i < |GtfsFiles| ==> TableName(GtfsFiles[i]) == GtfsTables[i]
  {
    forall i | 0 <= i < |GtfsFiles|
      ensures TableName(GtfsFiles[i]) == GtfsTables[i]
    {
      var base := GtfsTables[i];
      assert GtfsFiles[i] == base + ".txt";
      assert '.' !in base;
      TableNameOfTxt(base);
    }
  }

  /* ------------------------------------------------------------------ CSV */

  /** `v.replace(/^"|"$/g, '')`: one leading and one trailing double quote removed. */
  function StripQuotes(s: Str): (r: Str)
    ensures exists i, j :: 0 <= i <= 1 && |s| - 1 <= j <= |s| && i <= j && r == s[i..j]
    ensures (|s| == 0 || (s[0] != '"' && s[|s| - 1] != '"')) ==> r == s
    ensures |s| >= 2 && s[0] == '"' && s[|s| - 1] == '"' ==> r == s[1..|s| - 1]
    ensures |s| >= 1 && s[0] == '"' && s[|s| - 1] != '"' ==> r == s[1..]
    ensures |s| >= 1 && s[0] != '"' && s[|s| - 1] == '"' ==> r == s[..|s| - 1]
  {
    var i := if |s| > 0 && s[0] == '"' then 1 else 0;
    var j := if |s| > i && s[|s| - 1] == '"' then |s| - 1 else |s|;
    s[i..j]
  }

  /** Quoting a value and stripping the quotes gives the value back. */
  lemma QuotedRoundTrip(v: Str)
    ensures StripQuotes("\"" + v + "\"") == v
  {
    var q := "\"" + v + "\"";
    assert q[1..|q| - 1] == v;
  }

  /** A lone double quote is stripped to nothing. */
  lemma LoneQuote()
    ensures StripQuotes("\"") == ""
  {
  }

  /** The characters of a slice are characters of the whole. */
  lemma SliceChars(s: Str, i: int, j: int)
    requires 0 <= i <= j <= |s|
    ensures forall x :: x in s[i..j] ==> x in s
  {
    forall x | x in s[i..j]
      ensures x in s
    {
      var k :| 0 <= k < |s[i..j]| && s[i..j][k] == x;
      assert s[i + k] == x;
    }
  }

  /** Trimming only cuts characters off the ends. */
  lemma TrimChars(v: Str)
    ensures |Trim(v)| <= |v|
    ensures forall x :: x in Trim(v) ==> x in v
  {
    var t := Trim(v);
    var i, j :| 0 <= i <= j <= |v| && t == v[i..j] && AllSpace(v[..i]) && AllSpace(v[j..]);
    SliceChars(v, i, j);
  }

  /** Unquoting only cuts characters off the ends. */
  lemma StripChars(t: Str)
    ensures |StripQuotes(t)| <= |t|
    ensures forall x :: x in StripQuotes(t) ==> x in t
  {
    var k, l :| 0 <= k <= 1 && |t| - 1 <= l <= |t| && k <= l && StripQuotes(t) == t[k..l];
    SliceChars(t, k, l);
  }

  /** Trimming and unquoting only cut characters off the ends. */
  lemma CleanChars(v: Str)
    ensures |StripQuotes(Trim(v))| <= |v|
    ensures forall x :: x in StripQuotes(Trim(v)) ==> x in v
  {
    TrimChars(v);
    StripChars(Trim(v));
  }

  /**
   * One cell: trimmed, then unquoted. The cell keeps only characters of the
   * raw text, and a plain cell is read back as itself.
   */
  function CleanField(v: Str): (r: Str)
    ensures |r| <= |v|
    ensures forall x :: x in r ==> x in v
    ensures PlainCell(v) ==> r == v
  {
    CleanChars(v);
    if PlainCell(v) then
      TrimOfTrimmed(v);
      StripQuotes(Trim(v))
    else StripQuotes(Trim(v))
  }

  /** The cleaned cells of one line, split at every comma: no cell holds a comma. */
  function Fields(line: Str): (r: seq<Str>)
    ensures |r| == |Split(line, ',')|
    ensures forall i :: 0 <= i < |r| ==> r[i] == CleanField(Split(line, ',')[i])
    ensures forall i :: 0 <= i < |r| ==> ',' !in r[i]
  {
    var parts := Split(line, ',');
    assert forall i :: 0 <= i < |parts| ==> parts[i] in parts;
    seq(|parts|, i requires 0 <= i < |parts| => CleanField(parts[i]))
  }

  /**
   * The lines of a file: the whole text trimmed, then split at every newline.
   * No line holds a newline, and joining them gives the trimmed text back.
   */
  function Lines(text: Str): (r: seq<Str>)
    ensures |r| >= 1
    ensures forall l :: l in r ==> '\n' !in l
    ensures Join(r, '\n') == Trim(text)
  {
    JoinSplit(Trim(text), '\n');
    Split(Trim(text), '\n')
  }

  /**
   * A parsed record as a JavaScript object: `keys` in insertion order (that
   * of `Object.keys`), `fields` its entries.
   */
  datatype Record = Record(keys: seq<Str>, fields: map<Str, Str>)

  /** The value of the last column named `hs[i]` is `vs[i]` when no later column has that name. */
  ghost predicate LastWins(r: map<Str, Str>, hs: seq<Str>, vs: seq<Str>)
    requires |hs| == |vs|
  {
    && (forall h :: h in r <==> h in hs)
    && forall i :: 0 <= i < |hs| && (forall j :: i < j < |hs| ==> hs[j] != hs[i]) ==> r[hs[i]] == vs[i]
  }

  /** Assigning the last column on top of the assignment of the others. */
  lemma AssignLast(hs: seq<Str>, vs: seq<Str>, prev: map<Str, Str>)
    requires |hs| == |vs| && |hs| > 0
    requires LastWins(prev, hs[..|hs| - 1], vs[..|hs| - 1])
    ensures LastWins(prev[hs[|hs| - 1] := vs[|hs| - 1]], hs, vs)
  {
    var n := |hs| - 1;
    var front := hs[..n];
    var r := prev[hs[n] := vs[n]];
    assert hs == front + [hs[n]];
    forall i | 0 <= i < |hs| && (forall j :: i < j < |hs| ==> hs[j] != hs[i])
      ensures r[hs[i]] == vs[i]
    {
      if i < n {
        assert front[i] == hs[i] && vs[..n][i] == vs[i];
        forall j | i < j < |front|
          ensures front[j] != front[i]
        {
          assert front[j] == hs[j];
        }
        assert hs[n] != hs[i];
      }
    }
  }

  /** `header.forEach((h, i) => record[h] = values[i])`: later columns of the same name win. */
  function Assign(hs: seq<Str>, vs: seq<Str>): (r: map<Str, Str>)
    requires |hs| == |vs|
    ensures forall h :: h in r <==> h in hs
    ensures forall i :: 0 <= i < |hs| && (forall j :: i < j < |hs| ==> hs[j] != hs[i]) ==> r[hs[i]] == vs[i]
    decreases |hs|
  {
    if hs == [] then map[]
    else
      var n := |hs| - 1;
      var prev := Assign(hs[..n], vs[..n]);
      AssignLast(hs, vs, prev);
      prev[hs[n] := vs[n]]
  }

  function MakeRecord(header: seq<Str>, values: seq<Str>): (r: Record)
    requires |header| == |values|
    ensures NoDup(r.keys)
    ensures forall h :: h in r.keys <==> h in header
    ensures forall h :: h in r.fields <==> h in header
    ensures NoDup(header) ==> forall i :: 0 <= i < |header| ==> r.fields[header[i]] == values[i]
  {
    Record(Dedup(header), Assign(header, values))
  }

  /** `rec` is the record of one of `lines` that has as many cells as the header. */
  ghost predicate FromLine(rec: Record, header: seq<Str>, lines: seq<Str>)
  {
    exists i :: 0 <= i < |lines| && |Fields(lines[i])| == |header| && rec == MakeRecord(header, Fields(lines[i]))
  }

  lemma FromLineShift(rec: Record, header: seq<Str>, lines: seq<Str>)
    requires |lines| > 0 && FromLine(rec, header, lines[1..])
    ensures FromLine(rec, header, lines)
  {
    var i :| 0 <= i < |lines[1..]| && |Fields(lines[1..][i])| == |header| && rec == MakeRecord(header, Fields(lines[1..][i]));
    assert lines[i + 1] == lines[1..][i];
  }

  /** The data lines with as many cells as the header, in file order. */
  function KeptLines(header: seq<Str>, lines: seq<Str>): (r: seq<Str>)
    ensures forall l :: l in r <==> l in lines && |Fields(l)| == |header|
  {
    Filter(lines, l => |Fields(l)| == |header|)
  }

  /** One line at a time: the first line is kept when its cell count matches. */
  lemma KeptLinesCons(header: seq<Str>, lines: seq<Str>)
    requires |lines| > 0
    ensures KeptLines(header, lines)
         == (if |Fields(lines[0])| == |header| then [lines[0]] else []) + KeptLines(header, lines[1..])
  {
  }

  /** `r` holds the record of each kept line, in the order of the lines. */
  ghost predicate RecordsOfKept(r: seq<Record>, header: seq<Str>, kept: seq<Str>)
  {
    && |r| == |kept|
    && forall k :: 0 <= k < |r| ==> |Fields(kept[k])| == |header| && r[k] == MakeRecord(header, Fields(kept[k]))
  }

  lemma RecordsOfKeptCons(header: seq<Str>, line: Str, kept: seq<Str>, rest: seq<Record>)
    requires |Fields(line)| == |header|
    requires RecordsOfKept(rest, header, kept)
    ensures RecordsOfKept([MakeRecord(header, Fields(line))] + rest, header, [line] + kept)
  {
    var first := MakeRecord(header, Fields(line));
    forall k | 0 <= k < |rest| + 1
      ensures |Fields(([line] + kept)[k])| == |header| && ([first] + rest)[k] == MakeRecord(header, Fields(([line] + kept)[k]))
    {
      if k > 0 {
        ConsIndex(first, rest, k);
        ConsIndex(line, kept, k);
      }
    }
  }

  lemma ConsIndex<T>(x: T, xs: seq<T>, k: int)
    requires 1 <= k <= |xs|
    ensures ([x] + xs)[k] == xs[k - 1]
  {
  }

  /** The records of the data lines whose cell count equals the header's; other lines are dropped. */
  function ParseRows(header: seq<Str>, lines: seq<Str>): (r: seq<Record>)
    ensures |r| == |KeptLines(header, lines)|
    ensures forall k :: 0 <= k < |r| ==>
              |Fields(KeptLines(header, lines)[k])| == |header| && r[k] == MakeRecord(header, Fields(KeptLines(header, lines)[k]))
    ensures |r| <= |lines|
    ensures forall rec :: rec in r ==> FromLine(rec, header, lines)
    decreases |lines|
  {
    if lines == [] then []
    else
      var rest := ParseRows(header, lines[1..]);
      var values := Fields(lines[0]);
      var r := if |values| == |header| then [MakeRecord(header, values)] + rest else rest;
      ParseRowsStep(header, lines, rest, r);
      r
  }

  /** One step of `ParseRows`: the first line adds its record in front, or nothing. */
  lemma ParseRowsStep(header: seq<Str>, lines: seq<Str>, rest: seq<Record>, r: seq<Record>)
    requires lines != []
    requires RecordsOfKept(rest, header, KeptLines(header, lines[1..]))
    requires forall rec :: rec in rest ==> FromLine(rec, header, lines[1..])
    requires r == if |Fields(lines[0])| == |header| then [MakeRecord(header, Fields(lines[0]))] + rest else rest
    ensures RecordsOfKept(r, header, KeptLines(header, lines))
    ensures forall rec :: rec in r ==> FromLine(rec, header, lines)
  {
    var values := Fields(lines[0]);
    KeptLinesCons(header, lines);
    if |values| == |header| {
      RecordsOfKeptCons(header, lines[0], KeptLines(header, lines[1..]), rest);
    }
    forall rec | rec in r
      ensures FromLine(rec, header, lines)
    {
      if rec in rest {
        FromLineShift(rec, header, lines);
      } else {
        assert |values| == |header| && rec == MakeRecord(header, Fields(lines[0]));
      }
    }
  }

  /**
   * `parseCSV`: no records for a missing file or for fewer than two lines;
   * otherwise the first line names the columns and every data line with as
   * many cells as the header becomes one record.
   */
  function ParseCsv(text: Option<Str>): (r: seq<Record>)
    ensures text.None? ==> r == []
    ensures text.Some? && |Lines(text.value)| < 2 ==> r == []
    ensures r != [] ==> text.Some? && |Lines(text.value)| >= 2 && |r| < |Lines(text.value)|
    ensures text.Some? && |Lines(text.value)| >= 2 ==>
              var lines := Lines(text.value);
              var kept := KeptLines(Fields(lines[0]), lines[1..]);
              && |r| == |kept|
              && forall k :: 0 <= k < |r| ==>
                   |Fields(kept[k])| == |Fields(lines[0])| && r[k] == MakeRecord(Fields(lines[0]), Fields(kept[k]))
    ensures r != [] ==> forall rec :: rec in r ==>
              NoDup(rec.keys) && (forall h :: h in rec.keys <==> h in Fields(Lines(text.value)[0]))
              && (forall h :: h in rec.fields <==> h in rec.keys)
  {
    if text.None? then []
    else
      var lines := Lines(text.value);
      if |lines| < 2 then [] else ParseRows(Fields(lines[0]), lines[1..])
  }

  /* -------------------------------------------------------- CSV rendering */

  /** A cell the reader gives back unchanged: no separator, no padding, no surrounding quote. */
  predicate PlainCell(v: Str)
  {
    && ',' !in v && '\n' !in v
    && (|v| > 0 ==> !IsJsSpace(v[0]) && !IsJsSpace(v[|v| - 1]) && v[0] != '"' && v[|v| - 1] != '"')
  }

  /** The lines of a table written as comma-separated values, the header first. */
  function RenderLines(header: seq<Str>, rows: seq<seq<Str>>): (r: seq<Str>)
    requires |header| >= 1
    requires forall row :: row in rows ==> |row| >= 1
    ensures |r| == |rows| + 1
  {
    [Join(header, ',')] + seq(|rows|, i requires 0 <= i < |rows| => Join(rows[i], ','))
  }

  /** A table written as comma-separated lines. */
  function Render(header: seq<Str>, rows: seq<seq<Str>>): Str
    requires |header| >= 1
    requires forall row :: row in rows ==> |row| >= 1
  {
    Join(RenderLines(header, rows), '\n')
  }

  lemma {:induction false} JoinStartsWithFirst(parts: seq<Str>, c: char)
    requires |parts| >= 1
    ensures parts[0] <= Join(parts, c)
  {
  }

  lemma {:induction false} JoinEndsWithLast(parts: seq<Str>, c: char)
    requires |parts| >= 1
    ensures |parts[|parts| - 1]| <= |Join(parts, c)|
    ensures Join(parts, c)[|Join(parts, c)| - |parts[|parts| - 1]|..] == parts[|parts| - 1]
    decreases |parts|
  {
    if |parts| > 1 {
      JoinEndsWithLast(parts[1..], c);
      var j := Join(parts, c);
      var tail := Join(parts[1..], c);
      assert j == (parts[0] + [c]) + tail;
      assert j[|j| - |tail|..] == tail;
    }
  }

  /** A character in neither the parts nor the separator is not in the joined text. */
  lemma {:induction false} JoinAvoids(parts: seq<Str>, c: char, x: char)
    requires |parts| >= 1
    requires x != c
    requires forall p :: p in parts ==> x !in p
    ensures x !in Join(parts, c)
    decreases |parts|
  {
    assert parts[0] in parts;
    if |parts| > 1 {
      assert forall p :: p in parts[1..] ==> p in parts;
      JoinAvoids(parts[1..], c, x);
    }
  }

  /** The cells of a rendered line of plain cells are read back as they were. */
  lemma FieldsOfJoin(row: seq<Str>)
    requires |row| >= 1
    requires forall v :: v in row ==> PlainCell(v)
    ensures Fields(Join(row, ',')) == row
  {
    SplitJoin(row, ',');
    forall i | 0 <= i < |row|
      ensures CleanField(row[i]) == row[i]
    {
      assert row[i] in row;
    }
  }

  /** When every line matches the header, every line is kept. */
  lemma {:induction false} KeptAll(header: seq<Str>, lines: seq<Str>)
    requires forall i :: 0 <= i < |lines| ==> |Fields(lines[i])| == |header|
    ensures KeptLines(header, lines) == lines
    decreases |lines|
  {
    if lines != [] {
      assert forall i :: 0 <= i < |lines[1..]| ==> lines[1..][i] == lines[i + 1];
      KeptAll(header, lines[1..]);
      KeptAllStep(header, lines);
    }
  }

  lemma KeptAllStep(header: seq<Str>, lines: seq<Str>)
    requires lines != [] && |Fields(lines[0])| == |header|
    requires KeptLines(header, lines[1..]) == lines[1..]
    ensures KeptLines(header, lines) == lines
  {
    calc {
      KeptLines(header, lines);
      { KeptLinesCons(header, lines); }
      [lines[0]] + KeptLines(header, lines[1..]);
      [lines[0]] + lines[1..];
      { assert lines == [lines[0]] + lines[1..]; }
      lines;
    }
  }

  /** Data lines that all match the header give one record each, in order. */
  lemma ParseRowsAll(header: seq<Str>, lines: seq<Str>, rows: seq<seq<Str>>)
    requires |lines| == |rows|
    requires forall i :: 0 <= i < |lines| ==> Fields(lines[i]) == rows[i] && |rows[i]| == |header|
    ensures |ParseRows(header, lines)| == |rows|
    ensures forall i :: 0 <= i < |rows| ==> ParseRows(header, lines)[i] == MakeRecord(header, rows[i])
  {
    KeptAll(header, lines);
  }

  /** A text ending with a non-empty suffix ends with the suffix's last character. */
  lemma SuffixLastChar(s: Str, t: Str)
    requires 1 <= |t| <= |s| && s[|s| - |t|..] == t
    ensures s[|s| - 1] == t[|t| - 1]
  {
    assert s[|s| - |t|..][|t| - 1] == s[|s| - 1];
  }

  /** No line of a rendered table of plain cells holds a newline. */
  lemma RenderLinesOneLine(header: seq<Str>, rows: seq<seq<Str>>)
    requires |header| >= 1
    requires forall h :: h in header ==> PlainCell(h)
    requires forall row :: row in rows ==> |row| == |header| && forall v :: v in row ==> PlainCell(v)
    ensures forall l :: l in RenderLines(header, rows) ==> '\n' !in l
  {
    var lines := RenderLines(header, rows);
    forall l | l in lines
      ensures '\n' !in l
    {
      var k :| 0 <= k < |lines| && lines[k] == l;
      if k == 0 {
        JoinAvoids(header, ',', '\n');
      } else {
        assert rows[k - 1] in rows;
        JoinAvoids(rows[k - 1], ',', '\n');
      }
    }
  }

  /** A text that starts and ends with a character other than white space is its own trim. */
  lemma TrimmedBetween(text: Str, first: Str, last: Str)
    requires 1 <= |first| && first <= text && !IsJsSpace(first[0])
    requires 1 <= |last| <= |text| && text[|text| - |last|..] == last && !IsJsSpace(last[|last| - 1])
    ensures Trim(text) == text
  {
    assert text[0] == first[0];
    SuffixLastChar(text, last);
    TrimOfTrimmed(text);
  }

  /**
   * A rendered table starts with the first column name and ends with the last
   * cell; when neither is empty or white space at that end, trimming leaves it alone.
   */
  lemma RenderTrimmed(header: seq<Str>, rows: seq<seq<Str>>)
    requires |header| >= 1 && PlainCell(header[0]) && header[0] != ""
    requires |rows| >= 1 && forall row :: row in rows ==> |row| >= 1
    requires PlainCell(rows[|rows| - 1][|rows[|rows| - 1]| - 1]) && rows[|rows| - 1][|rows[|rows| - 1]| - 1] != ""
    ensures Trim(Render(header, rows)) == Render(header, rows)
  {
    var last := rows[|rows| - 1];
    var cell := last[|last| - 1];
    RenderStartsWithHeader(header, rows);
    RenderEndsWithCell(header, rows);
    TrimmedBetween(Render(header, rows), header[0], cell);
  }

  lemma RenderStartsWithHeader(header: seq<Str>, rows: seq<seq<Str>>)
    requires |header| >= 1
    requires forall row :: row in rows ==> |row| >= 1
    ensures header[0] <= Render(header, rows)
  {
    var lines := RenderLines(header, rows);
    JoinStartsWithFirst(header, ',');
    JoinStartsWithFirst(lines, '\n');
    assert lines[0] == Join(header, ',');
  }

  lemma RenderEndsWithCell(header: seq<Str>, rows: seq<seq<Str>>)
    requires |header| >= 1
    requires |rows| >= 1 && forall row :: row in rows ==> |row| >= 1
    ensures var last := rows[|rows| - 1]; var text := Render(header, rows);
            |last[|last| - 1]| <= |text| && text[|text| - |last[|last| - 1]|..] == last[|last| - 1]
  {
    var lines := RenderLines(header, rows);
    var last := rows[|rows| - 1];
    var row := Join(last, ',');
    JoinEndsWithLast(last, ',');
    JoinEndsWithLast(lines, '\n');
    assert lines[|lines| - 1] == row;
    SuffixOfSuffix(Render(header, rows), row, last[|last| - 1]);
  }

  lemma SuffixOfSuffix(s: Str, t: Str, u: Str)
    requires |t| <= |s| && s[|s| - |t|..] == t
    requires |u| <= |t| && t[|t| - |u|..] == u
    ensures |u| <= |s| && s[|s| - |u|..] == u
  {
    assert s[|s| - |u|..] == s[|s| - |t|..][|t| - |u|..];
  }

  /** The lines of a rendered table of plain cells are what the reader splits it into. */
  lemma LinesOfRender(header: seq<Str>, rows: seq<seq<Str>>)
    requires |header| >= 1
    requires forall h :: h in header ==> PlainCell(h) && h != ""
    requires |rows| >= 1
    requires forall row :: row in rows ==> |row| == |header| && forall v :: v in row ==> PlainCell(v)
    requires rows[|rows| - 1][|header| - 1] != ""
    ensures Lines(Render(header, rows)) == RenderLines(header, rows)
  {
    RenderLinesOneLine(header, rows);
    assert header[0] in header;
    assert rows[|rows| - 1] in rows;
    assert rows[|rows| - 1][|header| - 1] in rows[|rows| - 1];
    RenderTrimmed(header, rows);
    SplitJoin(RenderLines(header, rows), '\n');
  }


  /**
   * Reading back a rendered table of plain cells gives one record per row,
   * each mapping the column names to that row's cells.
   */
  lemma ParseRender(header: seq<Str>, rows: seq<seq<Str>>)
    requires |header| >= 1 && NoDup(header)
    requires forall h :: h in header ==> PlainCell(h) && h != ""
    requires |rows| >= 1
    requires forall row :: row in rows ==> |row| == |header| && forall v :: v in row ==> PlainCell(v)
    requires rows[|rows| - 1][|header| - 1] != ""
    ensures |ParseCsv(Some(Render(header, rows)))| == |rows|
    ensures forall i :: 0 <= i < |rows| ==> ParseCsv(Some(Render(header, rows)))[i] == MakeRecord(header, rows[i])
  {
    var lines := RenderLines(header, rows);
    LinesOfRender(header, rows);
    FieldsOfJoin(header);
    assert Fields(lines[0]) == header;
    assert ParseCsv(Some(Render(header, rows))) == ParseRows(header, lines[1..]);
    forall i | 0 <= i < |rows|
      ensures Fields(lines[1..][i]) == rows[i] && |rows[i]| == |header|
    {
      assert rows[i] in rows;
      FieldsOfJoin(rows[i]);
    }
    ParseRowsAll(header, lines[1..], rows);
  }

  /* --------------------------------------------------------------- tables */

  /** One bound row: column name to value, `None` for SQL NULL. */
  type Row = map<Str, Option<Str>>

  /** A loader table: every column TEXT, an optional primary-key column, the rows in insertion order. */
  datatype Table = Table(columns: seq<Str>, primaryKey: Option<Str>, rows: seq<Row>)

  type Database = map<Str, Table>

  /** The primary-key column of each table that has one. */
  const KeyColumns: map<Str, Str> :=
    map["stops" := "stop_id", "routes" := "route_id", "trips" := "trip_id", "agency" := "agency_id", "calendar" := "service_id"]

  /** The primary key `createTable` declares: the table's id column, when the file has it. */
  function PrimaryKeyFor(tableName: Str, headers: seq<Str>): (r: Option<Str>)
    ensures r.Some? ==> r.value in headers && tableName in KeyColumns && r.value == KeyColumns[tableName]
    ensures r.Some? <==> tableName in KeyColumns && KeyColumns[tableName] in headers
  {
    if tableName in KeyColumns && KeyColumns[tableName] in headers then Some(KeyColumns[tableName]) else None
  }

  /** `stop_times` never gets a primary key, whatever its columns. */
  lemma StopTimesUnkeyed(headers: seq<Str>)
    ensures PrimaryKeyFor("stop_times", headers).None?
  {
  }

  /** `createTable`: the table is dropped and created again, empty, with the given columns. */
  function CreateTable(db: Database, tableName: Str, headers: seq<Str>): (r: Database)
    ensures tableName in r && r[tableName].columns == headers && r[tableName].rows == []
    ensures r[tableName].primaryKey == PrimaryKeyFor(tableName, headers)
    ensures forall n :: n != tableName ==> (n in r <==> n in db) && (n in db ==> r[n] == db[n])
  {
    db[tableName := Table(headers, PrimaryKeyFor(tableName, headers), [])]
  }

  /** The value bound for column `h`: the record's field, or NULL when it has none. */
  function Bind(rec: Record, headers: seq<Str>): (r: Row)
    ensures forall h :: h in r <==> h in headers
    ensures forall h :: h in headers ==> (r[h].Some? <==> h in rec.fields)
    ensures forall h :: h in headers && h in rec.fields ==> r[h] == Some(rec.fields[h])
  {
    map h | h in headers :: if h in rec.fields then Some(rec.fields[h]) else None
  }

  /** The key value of a row: NULL when the column is not bound. */
  function KeyValue(row: Row, key: Str): Option<Str>
  {
    if key in row then row[key] else None
  }

  /** No two rows share a non-null primary-key value. */
  ghost predicate KeysUnique(t: Table)
  {
    t.primaryKey.Some? ==>
      forall i, j :: 0 <= i < j < |t.rows| && KeyValue(t.rows[i], t.primaryKey.value).Some? ==>
        KeyValue(t.rows[i], t.primaryKey.value) != KeyValue(t.rows[j], t.primaryKey.value)
  }

  /** The insert fails on a non-null key value some row already has. */
  predicate Conflicts(t: Table, row: Row)
  {
    && t.primaryKey.Some?
    && KeyValue(row, t.primaryKey.value).Some?
    && exists i :: 0 <= i < |t.rows| && KeyValue(t.rows[i], t.primaryKey.value) == KeyValue(row, t.primaryKey.value)
  }

  /**
   * After the insert of `row`, the table holds it or, with the same non-null
   * primary-key value, the row that made the insert fail.
   */
  ghost predicate Stored(t: Table, row: Row)
  {
    row in t.rows ||
    (t.primaryKey.Some? && exists i :: 0 <= i < |t.rows| && KeyValue(t.rows[i], t.primaryKey.value) == KeyValue(row, t.primaryKey.value))
  }

  lemma StoredExtends(t: Table, r: Table, row: Row)
    requires Stored(t, row)
    requires t.rows <= r.rows && r.primaryKey == t.primaryKey
    ensures Stored(r, row)
  {
    if row in t.rows {
      var i :| 0 <= i < |t.rows| && t.rows[i] == row;
      assert r.rows[i] == row;
    } else {
      var i :| 0 <= i < |t.rows| && KeyValue(t.rows[i], t.primaryKey.value) == KeyValue(row, t.primaryKey.value);
      assert r.rows[i] == t.rows[i];
    }
  }

  /** One `stmt.run` inside the `try`: a row repeating a key is skipped, any other appended. */
  function InsertRow(t: Table, row: Row): (r: Table)
    ensures r.columns == t.columns && r.primaryKey == t.primaryKey
    ensures r.rows == t.rows || r.rows == t.rows + [row]
    ensures t.primaryKey.None? ==> r.rows == t.rows + [row]
    ensures KeysUnique(t) ==> KeysUnique(r)
    ensures Stored(r, row)
  {
    if Conflicts(t, row) then t
    else
      var r := t.(rows := t.rows + [row]);
      assert KeysUnique(t) ==> KeysUnique(r) by {
        if KeysUnique(t) && t.primaryKey.Some? {
          var k := t.primaryKey.value;
          forall i, j | 0 <= i < j < |r.rows| && KeyValue(r.rows[i], k).Some?
            ensures KeyValue(r.rows[i], k) != KeyValue(r.rows[j], k)
          {
            assert r.rows[i] == t.rows[i];
            if j < |t.rows| {
              assert r.rows[j] == t.rows[j];
            }
          }
        }
      }
      assert r.rows[|t.rows|] == row;
      r
  }

  lemma NewRowsFrom(t: Table, t': Table, r: Table, rows: seq<Row>)
    requires |rows| > 0
    requires t'.rows == t.rows || t'.rows == t.rows + [rows[0]]
    requires t'.rows <= r.rows
    requires forall row :: row in r.rows[|t'.rows|..] ==> row in rows[1..]
    ensures forall row :: row in r.rows[|t.rows|..] ==> row in rows
  {
    forall row | row in r.rows[|t.rows|..]
      ensures row in rows
    {
      var k :| |t.rows| <= k < |r.rows| && r.rows[k] == row;
      if k >= |t'.rows| {
        assert row == r.rows[|t'.rows|..][k - |t'.rows|];
        assert row in rows[1..];
      } else {
        assert row == rows[0];
      }
    }
  }

  /** The inserts of `insertData`'s loop, in order. */
  function InsertRows(t: Table, rows: seq<Row>): (r: Table)
    ensures r.columns == t.columns && r.primaryKey == t.primaryKey
    ensures t.rows <= r.rows && |r.rows| <= |t.rows| + |rows|
    ensures t.primaryKey.None? ==> r.rows == t.rows + rows
    ensures KeysUnique(t) ==> KeysUnique(r)
    ensures forall row :: row in rows ==> Stored(r, row)
    ensures forall row :: row in r.rows[|t.rows|..] ==> row in rows
    decreases |rows|
  {
    if rows == [] then t
    else
      var t' := InsertRow(t, rows[0]);
      var r := InsertRows(t', rows[1..]);
      assert rows == [rows[0]] + rows[1..];
      NewRowsFrom(t, t', r, rows);
      StoredExtends(t', r, rows[0]);
      assert t.primaryKey.None? ==> r.rows == t.rows + rows by {
        if t.primaryKey.None? {
          assert r.rows == (t.rows + [rows[0]]) + rows[1..];
        }
      }
      r
  }

  /** `insertData`: nothing for no records; otherwise every record bound by the headers and inserted in order. */
  function InsertData(t: Table, headers: seq<Str>, records: seq<Record>): (r: Table)
    ensures records == [] ==> r == t
    ensures r.columns == t.columns && r.primaryKey == t.primaryKey
    ensures t.rows <= r.rows && |r.rows| <= |t.rows| + |records|
    ensures KeysUnique(t) ==> KeysUnique(r)
    ensures t.primaryKey.None? ==> |r.rows| == |t.rows| + |records|
    ensures forall row :: row in r.rows[|t.rows|..] ==> exists rec :: rec in records && row == Bind(rec, headers)
    ensures forall rec :: rec in records ==> Stored(r, Bind(rec, headers))
    ensures t.primaryKey.None? ==> r.rows == t.rows + seq(|records|, i requires 0 <= i < |records| => Bind(records[i], headers))
  {
    if records == [] then t
    else
      var rows := seq(|records|, i requires 0 <= i < |records| => Bind(records[i], headers));
      var r := InsertRows(t, rows);
      assert forall rec :: rec in records ==> Bind(rec, headers) in rows by {
        forall rec | rec in records
          ensures Bind(rec, headers) in rows
        {
          var i :| 0 <= i < |records| && records[i] == rec;
          assert rows[i] == Bind(rec, headers);
        }
      }
      assert forall row :: row in r.rows[|t.rows|..] ==> exists rec :: rec in records && row == Bind(rec, headers) by {
        forall row | row in r.rows[|t.rows|..]
          ensures exists rec :: rec in records && row == Bind(rec, headers)
        {
          var k :| |t.rows| <= k < |r.rows| && r.rows[k] == row;
          var i :| 0 <= i < |rows| && rows[i] == row;
          assert records[i] in records;
        }
      }
      r
  }

  /* ---------------------------------------------------------------- main */

  /**
   * The table a file with records leaves behind: the columns of the first
   * record, the table's id column as primary key, no NULL, no repeated key,
   * every record's row stored unless an earlier row has its key, and no row
   * that is not a record's.
   */
  ghost predicate Loaded(t: Table, name: Str, records: seq<Record>)
    requires records != []
  {
    && t.columns == records[0].keys
    && t.primaryKey == PrimaryKeyFor(name, t.columns)
    && KeysUnique(t) && NoNulls(t)
    && (forall rec :: rec in records ==> Stored(t, Bind(rec, t.columns)))
    && (forall row :: row in t.rows ==> exists rec :: rec in records && row == Bind(rec, t.columns))
    && (t.primaryKey.None? ==> t.rows == seq(|records|, i requires 0 <= i < |records| => Bind(records[i], t.columns)))
  }

  /** Table `n` is in `r` exactly when it was in `db`, and is the same table. */
  ghost predicate Untouched(db: Database, r: Database, n: Str)
  {
    (n in r <==> n in db) && (n in db ==> r[n] == db[n])
  }

  /** Creating a table for a non-empty batch of records and inserting them gives a loaded table. */
  lemma CreateAndInsert(db: Database, name: Str, records: seq<Record>)
    requires records != [] && NoDup(records[0].keys)
    requires forall rec :: rec in records ==> forall h :: h in records[0].keys ==> h in rec.fields
    ensures var created := CreateTable(db, name, records[0].keys);
            Loaded(InsertData(created[name], records[0].keys, records), name, records)
  {
    var headers := records[0].keys;
    var created := CreateTable(db, name, headers);
    var t := InsertData(created[name], headers, records);
    InsertedNoNulls(created[name], headers, records);
    assert KeysUnique(created[name]);
    assert t.rows[|created[name].rows|..] == t.rows;
  }

  /** `createTable` then `insertData` for a batch of records: only table `name` changes. */
  function Reload(db: Database, name: Str, records: seq<Record>): (r: Database)
    requires records != []
    ensures name in r && r[name] == InsertData(CreateTable(db, name, records[0].keys)[name], records[0].keys, records)
    ensures forall n :: n != name ==> Untouched(db, r, n)
  {
    var headers := records[0].keys;
    var created := CreateTable(db, name, headers);
    var r := created[name := InsertData(created[name], headers, records)];
    assert forall n :: n != name ==> Untouched(db, r, n) by {
      forall n | n != name
        ensures Untouched(db, r, n)
      {
        assert n in r <==> n in created;
      }
    }
    r
  }

  /** Loading one file: parse it and, when it has records, recreate its table and fill it. */
  function LoadFile(db: Database, fileName: Str, text: Option<Str>): (r: Database)
    ensures ParseCsv(text) == [] ==> r == db
    ensures ParseCsv(text) != [] ==> TableName(fileName) in r && Loaded(r[TableName(fileName)], TableName(fileName), ParseCsv(text))
    ensures ParseCsv(text) != [] ==> NoDup(r[TableName(fileName)].columns)
    ensures forall n :: n != TableName(fileName) ==> Untouched(db, r, n)
  {
    var records := ParseCsv(text);
    if records != [] then
      ParsedLoad(db, TableName(fileName), text);
      Reload(db, TableName(fileName), records)
    else db
  }

  /** The parsed records of a file with records load into a table of their own. */
  lemma ParsedLoad(db: Database, name: Str, text: Option<Str>)
    requires ParseCsv(text) != []
    ensures NoDup(ParseCsv(text)[0].keys)
    ensures var records := ParseCsv(text);
            var created := CreateTable(db, name, records[0].keys);
            Loaded(InsertData(created[name], records[0].keys, records), name, records)
  {
    var records := ParseCsv(text);
    assert records[0] in records;
    ParsedCoverKeys(text);
    CreateAndInsert(db, name, records);
  }

  /** Every parsed record has a field for each key of the first record. */
  lemma ParsedCoverKeys(text: Option<Str>)
    requires ParseCsv(text) != []
    ensures forall rec :: rec in ParseCsv(text) ==> forall h :: h in ParseCsv(text)[0].keys ==> h in rec.fields
  {
    var records := ParseCsv(text);
    assert records[0] in records;
  }

  /** Inserting records that have a field for every column into a fresh table stores no NULL. */
  lemma InsertedNoNulls(t: Table, headers: seq<Str>, records: seq<Record>)
    requires t.rows == [] && t.columns == headers
    requires forall rec :: rec in records ==> forall h :: h in headers ==> h in rec.fields
    ensures NoNulls(InsertData(t, headers, records))
  {
    var r := InsertData(t, headers, records);
    forall row: Row | row in r.rows
      ensures forall h: Str :: h in r.columns ==> h in row && row[h].Some?
    {
      assert r.rows[|t.rows|..] == r.rows;
      var rec :| rec in records && row == Bind(rec, headers);
    }
  }

  /** Every row binds a value to every column: no NULL. */
  ghost predicate NoNulls(t: Table)
  {
    forall row: Row :: row in t.rows ==> forall h: Str :: h in t.columns ==> h in row && row[h].Some?
  }

  /** The text of a feed file, when the directory holds it. */
  function FileText(files: map<Str, Str>, fileName: Str): Option<Str>
  {
    if fileName in files then Some(files[fileName]) else None
  }

  /** No file of `names` that has records fills table `n`. */
  ghost predicate NoRecordsFor(files: map<Str, Str>, names: seq<Str>, n: Str)
  {
    forall f :: f in names && ParseCsv(FileText(files, f)) != [] ==> TableName(f) != n
  }

  /** No file after position `k` fills the same table as `names[k]`. */
  ghost predicate LastFor(names: seq<Str>, k: int)
    requires 0 <= k < |names|
  {
    forall j :: k < j < |names| ==> TableName(names[j]) != TableName(names[k])
  }

  lemma LastForTail(names: seq<Str>, k: int)
    requires 0 < k < |names| && LastFor(names, k)
    ensures LastFor(names[1..], k - 1)
  {
    forall j | k - 1 < j < |names[1..]|
      ensures TableName(names[1..][j]) != TableName(names[1..][k - 1])
    {
      assert names[1..][j] == names[j + 1];
    }
  }

  lemma NoRecordsForTail(files: map<Str, Str>, names: seq<Str>, n: Str)
    requires |names| > 0 && NoRecordsFor(files, names, n)
    ensures NoRecordsFor(files, names[1..], n)
  {
    assert forall f :: f in names[1..] ==> f in names;
  }

  /** After the last file for a table nothing else fills it. */
  lemma LastForNoLater(files: map<Str, Str>, names: seq<Str>)
    requires |names| > 0 && LastFor(names, 0)
    ensures NoRecordsFor(files, names[1..], TableName(names[0]))
  {
    forall f | f in names[1..] && ParseCsv(FileText(files, f)) != []
      ensures TableName(f) != TableName(names[0])
    {
      var j :| 0 <= j < |names[1..]| && names[1..][j] == f;
      assert names[j + 1] == f;
    }
  }

  /**
   * The loader's `main`: every file in turn, `files` giving the text of those
   * present. A table whose files have no records is left as it was; the last
   * file for a table that has records leaves it loaded with them.
   */
  function LoadFiles(db: Database, names: seq<Str>, files: map<Str, Str>): (r: Database)
    ensures forall n :: n in r ==> n in db || exists f :: f in names && n == TableName(f)
    ensures forall n :: NoRecordsFor(files, names, n) ==> Untouched(db, r, n)
    ensures forall k :: 0 <= k < |names| && LastFor(names, k) && ParseCsv(FileText(files, names[k])) != [] ==>
              TableName(names[k]) in r && Loaded(r[TableName(names[k])], TableName(names[k]), ParseCsv(FileText(files, names[k])))
    decreases |names|
  {
    if names == [] then db
    else
      var loaded := LoadFile(db, names[0], FileText(files, names[0]));
      var r := LoadFiles(loaded, names[1..], files);
      assert forall n :: n in r ==> n in db || exists f :: f in names && n == TableName(f) by {
        forall n | n in r && n !in db
          ensures exists f :: f in names && n == TableName(f)
        {
          if n != TableName(names[0]) {
            assert n !in loaded;
            var f :| f in names[1..] && n == TableName(f);
            assert f in names;
          }
        }
      }
      assert forall n :: NoRecordsFor(files, names, n) ==> Untouched(db, r, n) by {
        forall n | NoRecordsFor(files, names, n)
          ensures Untouched(db, r, n)
        {
          NoRecordsForTail(files, names, n);
          assert Untouched(db, loaded, n);
        }
      }
      forall k | 0 <= k < |names| && LastFor(names, k) && ParseCsv(FileText(files, names[k])) != []
        ensures TableName(names[k]) in r && Loaded(r[TableName(names[k])], TableName(names[k]), ParseCsv(FileText(files, names[k])))
      {
        if k == 0 {
          LastForNoLater(files, names);
        } else {
          LastForTail(names, k);
          assert names[1..][k - 1] == names[k];
        }
      }
      r
  }

  /**
   * Loading the feed into the database file as it stands: each feed table
   * whose file has records is loaded with them; a feed table whose file is
   * missing or has no records, and every table that is not a feed table,
   * is left as it was.
   */
  function LoadFeed(db: Database, files: map<Str, Str>): (r: Database)
    ensures forall n :: n in r ==> n in db || n in GtfsTables
    ensures forall n :: n !in GtfsTables ==> Untouched(db, r, n)
    ensures forall i :: 0 <= i < |GtfsFiles| && ParseCsv(FileText(files, GtfsFiles[i])) != [] ==>
              GtfsTables[i] in r && Loaded(r[GtfsTables[i]], GtfsTables[i], ParseCsv(FileText(files, GtfsFiles[i])))
    ensures forall i :: 0 <= i < |GtfsFiles| && ParseCsv(FileText(files, GtfsFiles[i])) == [] ==> Untouched(db, r, GtfsTables[i])
  {
    FeedTablesOnly(db, files);
    FeedFilesLoaded(db, files);
    LoadFiles(db, GtfsFiles, files)
  }

  /** Loading the feed files adds no table but the feed's and leaves every other one alone. */
  lemma FeedTablesOnly(db: Database, files: map<Str, Str>)
    ensures forall n :: n in LoadFiles(db, GtfsFiles, files) ==> n in db || n in GtfsTables
    ensures forall n :: n !in GtfsTables ==> Untouched(db, LoadFiles(db, GtfsFiles, files), n)
  {
    GtfsTableNames();
    assert forall f :: f in GtfsFiles ==> TableName(f) in GtfsTables;
    GtfsNoRecords(files);
  }

  /** Each feed table is loaded from its file when the file has records, and left alone otherwise. */
  lemma FeedFilesLoaded(db: Database, files: map<Str, Str>)
    ensures var r := LoadFiles(db, GtfsFiles, files);
            forall i :: 0 <= i < |GtfsFiles| && ParseCsv(FileText(files, GtfsFiles[i])) != [] ==>
              GtfsTables[i] in r && Loaded(r[GtfsTables[i]], GtfsTables[i], ParseCsv(FileText(files, GtfsFiles[i])))
    ensures forall i :: 0 <= i < |GtfsFiles| && ParseCsv(FileText(files, GtfsFiles[i])) == [] ==>
              Untouched(db, LoadFiles(db, GtfsFiles, files), GtfsTables[i])
  {
    GtfsTableNames();
    GtfsFilesLast();
    GtfsNoRecords(files);
  }

  /** Each feed file is the only one filling its table. */
  lemma GtfsFilesLast()
    ensures forall i :: 0 <= i < |GtfsFiles| ==> LastFor(GtfsFiles, i)
  {
    GtfsTableNames();
    GtfsTablesDistinct();
  }

  lemma GtfsTablesDistinct()
    ensures forall i, j :: 0 <= i < j < |GtfsTables| ==> GtfsTables[i] != GtfsTables[j]
  {
    forall i, j | 0 <= i < j < |GtfsTables|
      ensures GtfsTables[i] != GtfsTables[j]
    {
      assert GtfsTables[i][0] != GtfsTables[j][0] || |GtfsTables[i]| != |GtfsTables[j]|;
    }
  }

  /** A table no feed file with records fills: not a feed table, or one whose file has none. */
  lemma GtfsNoRecords(files: map<Str, Str>)
    ensures forall n :: n !in GtfsTables ==> NoRecordsFor(files, GtfsFiles, n)
    ensures forall i :: 0 <= i < |GtfsFiles| && ParseCsv(FileText(files, GtfsFiles[i])) == [] ==>
              NoRecordsFor(files, GtfsFiles, GtfsTables[i])
  {
    GtfsTableNames();
    GtfsTablesDistinct();
    forall n | n !in GtfsTables
      ensures NoRecordsFor(files, GtfsFiles, n)
    {
      NamesOutside(files, GtfsFiles, GtfsTables, n);
    }
    forall i | 0 <= i < |GtfsFiles| && ParseCsv(FileText(files, GtfsFiles[i])) == []
      ensures NoRecordsFor(files, GtfsFiles, GtfsTables[i])
    {
      EmptyFileOnly(files, GtfsFiles, GtfsTables, i);
    }
  }

  /** A table outside the names the files give is filled by none of them. */
  lemma NamesOutside(files: map<Str, Str>, names: seq<Str>, tables: seq<Str>, n: Str)
    requires |tables| == |names|
    requires forall i :: 0 <= i < |names| ==> TableName(names[i]) == tables[i]
    requires n !in tables
    ensures NoRecordsFor(files, names, n)
  {
    forall f | f in names && ParseCsv(FileText(files, f)) != []
      ensures TableName(f) != n
    {
      var j :| 0 <= j < |names| && names[j] == f;
      assert tables[j] in tables;
    }
  }

  /** When each file gives its own table, a table whose file has no records is filled by none. */
  lemma EmptyFileOnly(files: map<Str, Str>, names: seq<Str>, tables: seq<Str>, i: int)
    requires |tables| == |names|
    requires forall k :: 0 <= k < |names| ==> TableName(names[k]) == tables[k]
    requires forall k, j :: 0 <= k < j < |tables| ==> tables[k] != tables[j]
    requires 0 <= i < |names| && ParseCsv(FileText(files, names[i])) == []
    ensures NoRecordsFor(files, names, tables[i])
  {
    forall f | f in names && ParseCsv(FileText(files, f)) != []
      ensures TableName(f) != tables[i]
    {
      var j :| 0 <= j < |names| && names[j] == f;
      assert j != i;
    }
  }
}
