/**
 * CsvUtil: field escaping, row writing and the quote-aware line scanner.
 */
module Csv {
  import opened Wrappers

  /** A field is quoted when it holds a comma, a double quote, LF or CR. */
  predicate NeedsQuoting(v: string) {
    ',' in v || '"' in v || '\n' in v || '\r' in v
  }

  function CountChar(s: string, c: char): nat {
    if s == [] then 0 else (if s[0] == c then 1 else 0) + CountChar(s[1..], c)
  }

  lemma {:induction false} CountCharAppend(a: string, b: string, c: char)
    ensures CountChar(a + b, c) == CountChar(a, c) + CountChar(b, c)
  {
    if a != [] {
      assert (a + b)[0] == a[0] && (a + b)[1..] == a[1..] + b;
      CountCharAppend(a[1..], b, c);
    } else {
      assert a + b == b;
    }
  }

  lemma {:induction false} CountCharZero(s: string, c: char)
    ensures CountChar(s, c) == 0 <==> c !in s
  {
    if s != [] {
      CountCharZero(s[1..], c);
      assert s == [s[0]] + s[1..];
    }
  }

  /** String.replace("\"", "\"\""). */
  function DoubleQuotes(v: string): (r: string)
    ensures |r| == |v| + CountChar(v, '"')
    ensures '"' !in v ==> r == v
  {
    if v == [] then []
    else
      assert v == [v[0]] + v[1..];
      (if v[0] == '"' then "\"\"" else [v[0]]) + DoubleQuotes(v[1..])
  }

  lemma {:induction false} DoubleQuotesCount(v: string)
    ensures CountChar(DoubleQuotes(v), '"') == 2 * CountChar(v, '"')
  {
    if v != [] {
      var head: string := if v[0] == '"' then "\"\"" else [v[0]];
      DoubleQuotesCount(v[1..]);
      CountCharAppend(head, DoubleQuotes(v[1..]), '"');
      assert CountChar(head, '"') == if v[0] == '"' then 2 else 0 by {
        if v[0] == '"' {
          assert head[1..][1..] == [];
        } else {
          assert head[1..] == [];
        }
      }
    }
  }

  /** CsvUtil.escape for a non-null value. */
  function Escape(v: string): (r: string)
    ensures r == v <==> !NeedsQuoting(v)
    ensures NeedsQuoting(v) ==> |r| >= 2 && r[0] == '"' && r[|r| - 1] == '"'
    ensures CountChar(r, '"') == 2 * CountChar(v, '"') + (if NeedsQuoting(v) then 2 else 0)
  {
    var s := DoubleQuotes(v);
    DoubleQuotesCount(v);
    if NeedsQuoting(v) then
      var r := "\"" + s + "\"";
      CountCharAppend("\"" + s, "\"", '"');
      CountCharAppend("\"", s, '"');
      r
    else
      CountCharZero(v, '"');
      s
  }

  lemma EscapeQuoted(v: string)
    requires NeedsQuoting(v)
    ensures Escape(v) == "\"" + DoubleQuotes(v) + "\""
  {
  }

  /** CsvUtil.escape, which maps null to the empty string. */
  function EscapeNullable(v: Option<string>): (r: string)
    ensures v.None? ==> r == ""
    ensures v.Some? ==> r == Escape(v.value)
  {
    match v
    case None => ""
    case Some(s) => Escape(s)
  }

  /** The escaped values joined by single commas. */
  function JoinEscaped(values: seq<string>): string {
    if values == [] then ""
    else if |values| == 1 then Escape(values[0])
    else Escape(values[0]) + "," + JoinEscaped(values[1..])
  }

  lemma {:induction false} JoinEscapedSnoc(values: seq<string>, v: string)
    requires values != []
    ensures JoinEscaped(values + [v]) == JoinEscaped(values) + "," + Escape(v)
  {
    var all := values + [v];
    assert all[1..] == values[1..] + [v];
    if |values| > 1 {
      JoinEscapedSnoc(values[1..], v);
    }
  }

  /** A joined row starts as its first value's escaped text does. */
  lemma JoinEscapedFirst(values: seq<string>)
    requires values != [] && values[0] != []
    ensures JoinEscaped(values)[0] == Escape(values[0])[0]
    ensures JoinEscaped(values)[0] == if NeedsQuoting(values[0]) then '"' else values[0][0]
  {
  }

  /** Escaping keeps every character other than the quote: it is in the escaped text exactly
      when it is in the value. */
  lemma {:induction false} DoubleQuotesKeeps(v: string, c: char)
    requires c != '"'
    ensures c in DoubleQuotes(v) <==> c in v
  {
    if v != [] {
      DoubleQuotesKeeps(v[1..], c);
      assert v == [v[0]] + v[1..];
    }
  }

  lemma EscapeKeeps(v: string, c: char)
    requires c != '"'
    ensures c in Escape(v) <==> c in v
  {
    DoubleQuotesKeeps(v, c);
    if NeedsQuoting(v) {
      EscapeQuoted(v);
    }
  }

  /** A character other than the comma and the quote is in a joined row exactly when it is
      in one of the values: escaping never removes a line break, it only quotes it. */
  lemma {:induction false} JoinEscapedKeeps(values: seq<string>, c: char)
    requires c != '"' && c != ','
    ensures c in JoinEscaped(values) <==> exists i | 0 <= i < |values| :: c in values[i]
  {
    if values != [] {
      EscapeKeeps(values[0], c);
      if |values| > 1 {
        JoinEscapedKeeps(values[1..], c);
        assert forall i | 1 <= i < |values| :: values[i] == values[1..][i - 1];
        assert forall i | 0 <= i < |values| - 1 :: values[1..][i] == values[i + 1];
      }
    }
  }

  /** The text CsvUtil.writeRow writes for one row. */
  function Row(values: seq<string>): (r: string)
    ensures |r| >= 1 && r[|r| - 1] == '\n'
    ensures r[..|r| - 1] == JoinEscaped(values)
  {
    JoinEscaped(values) + "\n"
  }

  /** CsvUtil.writeRow: appends the escaped values, comma-separated, then a newline. */
  method WriteRow(values: seq<string>) returns (line: string)
    ensures line == Row(values)
  {
    var sb := "";
    for i := 0 to |values|
      invariant sb == JoinEscaped(values[..i])
    {
      if i > 0 {
        sb := sb + ",";
        JoinEscapedSnoc(values[..i], values[i]);
      }
      assert values[..i + 1] == values[..i] + [values[i]];
      sb := sb + Escape(values[i]);
    }
    assert values[..|values|] == values;
    line := sb + "\n";
  }

  /** An empty row is written as a lone newline. */
  lemma EmptyRow()
    ensures Row([]) == "\n"
  {
  }

  /** A whole CSV document: each row written in turn. */
  function CsvText(rows: seq<seq<string>>): string {
    if rows == [] then "" else CsvText(rows[..|rows| - 1]) + Row(rows[|rows| - 1])
  }

  /** A one-row document is that row's text. */
  lemma CsvTextSingle(r: seq<string>)
    ensures CsvText([r]) == Row(r)
  {
    assert [r][..0] == [];
  }

  /** Writing one more row appends that row's text. */
  lemma CsvTextSnoc(rows: seq<seq<string>>, r: seq<string>)
    ensures CsvText(rows + [r]) == CsvText(rows) + Row(r)
  {
    assert (rows + [r])[..|rows|] == rows;
  }

  /** The rows written for a list of items, one per item, in order. */
  function RowsOf<T>(items: seq<T>, fields: T -> seq<string>): (rows: seq<seq<string>>)
    ensures |rows| == |items|
  {
    if items == [] then [] else RowsOf(items[..|items| - 1], fields) + [fields(items[|items| - 1])]
  }

  /** A document as the exports write it: the header row, then one row per item. */
  function Document<T>(header: seq<string>, items: seq<T>, fields: T -> seq<string>): string {
    CsvText([header] + RowsOf(items, fields))
  }

  /** With no items the document is its header row alone, */
  lemma DocumentEmpty<T>(header: seq<string>, fields: T -> seq<string>)
    ensures Document(header, [], fields) == Row(header)
  {
    assert [header] + RowsOf([], fields) == [header];
    CsvTextSingle(header);
  }

  /** Appending an item appends its row, */
  lemma DocumentSnoc<T>(header: seq<string>, items: seq<T>, fields: T -> seq<string>, x: T)
    ensures Document(header, items + [x], fields) == Document(header, items, fields) + Row(fields(x))
  {
    assert (items + [x])[..|items|] == items;
    assert RowsOf(items + [x], fields) == RowsOf(items, fields) + [fields(x)];
    assert [header] + RowsOf(items + [x], fields) == ([header] + RowsOf(items, fields)) + [fields(x)];
    CsvTextSnoc([header] + RowsOf(items, fields), fields(x));
  }

  /** so each further item of a list appends its own row. */
  lemma DocumentStep<T>(header: seq<string>, items: seq<T>, fields: T -> seq<string>, k: nat)
    requires k < |items|
    ensures Document(header, items[..k + 1], fields) == Document(header, items[..k], fields) + Row(fields(items[k]))
  {
    assert items[..k + 1] == items[..k] + [items[k]];
    DocumentSnoc(header, items[..k], fields, items[k]);
  }

  /**
   * The scanner of CsvUtil.parseLine, one character at a time: s is the rest of the
   * line, cur the field being read and out the fields finished so far.
   */
  function Scan(s: string, inQuotes: bool, cur: string, out: seq<string>): seq<string>
    decreases |s|
  {
    if s == [] then out + [cur]
    else if s[0] == '"' then
      if inQuotes && |s| > 1 && s[1] == '"' then Scan(s[2..], inQuotes, cur + "\"", out)
      else Scan(s[1..], !inQuotes, cur, out)
    else if s[0] == ',' && !inQuotes then Scan(s[1..], inQuotes, "", out + [cur])
    else Scan(s[1..], inQuotes, cur + [s[0]], out)
  }

  /** The fields CsvUtil.parseLine returns for a non-null line. */
  function Parse(line: string): seq<string> {
    Scan(line, false, "", [])
  }

  /** CsvUtil.parseLine: null gives no fields; otherwise the scanner's fields. */
  method ParseLine(line: Option<string>) returns (out: seq<string>)
    ensures line.None? ==> out == []
    ensures line.Some? ==> out == Parse(line.value)
  {
    out := [];
    if line.None? {
      return;
    }
    var s := line.value;
    var cur := "";
    var inQuotes := false;
    var i := 0;
    while i < |s|
      invariant 0 <= i <= |s|
      invariant Scan(s[i..], inQuotes, cur, out) == Parse(s)
    {
      var c := s[i];
      if c == '"' {
        if inQuotes && i + 1 < |s| && s[i + 1] == '"' {
          // a doubled quote inside quotes stands for one quote character
          cur := cur + "\"";
          assert s[i..][2..] == s[i + 2..];
          i := i + 1;
        } else {
          inQuotes := !inQuotes;
          assert s[i..][1..] == s[i + 1..];
        }
      } else if c == ',' && !inQuotes {
        assert s[i..][1..] == s[i + 1..];
        out := out + [cur];
        cur := "";
      } else {
        assert s[i..][1..] == s[i + 1..];
        cur := cur + [c];
      }
      i := i + 1;
    }
    out := out + [cur];
  }

  /**
   * The commas that separate fields, counted with a flag that every double quote
   * flips. A doubled quote inside quotes flips it twice, so the count agrees with
   * the scanner, which treats that pair as one literal quote.
   */
  function SeparatorCount(s: string, inQuotes: bool): nat {
    if s == [] then 0
    else if s[0] == '"' then SeparatorCount(s[1..], !inQuotes)
    else if s[0] == ',' && !inQuotes then 1 + SeparatorCount(s[1..], inQuotes)
    else SeparatorCount(s[1..], inQuotes)
  }

  lemma {:induction false} ScanLength(s: string, inQuotes: bool, cur: string, out: seq<string>)
    ensures |Scan(s, inQuotes, cur, out)| == |out| + 1 + SeparatorCount(s, inQuotes)
    decreases |s|
  {
    if s == [] {
    } else if s[0] == '"' {
      if inQuotes && |s| > 1 && s[1] == '"' {
        ScanLength(s[2..], inQuotes, cur + "\"", out);
        assert s[1..][1..] == s[2..];
      } else {
        ScanLength(s[1..], !inQuotes, cur, out);
      }
    } else if s[0] == ',' && !inQuotes {
      ScanLength(s[1..], inQuotes, "", out + [cur]);
    } else {
      ScanLength(s[1..], inQuotes, cur + [s[0]], out);
    }
  }

  /** A parsed line has one field more than it has separating commas, so at least one. */
  lemma ParseFieldCount(line: string)
    ensures |Parse(line)| == 1 + SeparatorCount(line, false)
  {
    ScanLength(line, false, "", []);
  }

  /** An unquoted field is read character for character. */
  lemma {:induction false} ScanPlain(v: string, rest: string, cur: string, out: seq<string>)
    requires !NeedsQuoting(v)
    ensures Scan(v + rest, false, cur, out) == Scan(rest, false, cur + v, out)
    decreases |v|
  {
    if v == [] {
      assert v + rest == rest && cur + v == cur;
    } else {
      var s := v + rest;
      assert s[0] == v[0] && s[1..] == v[1..] + rest;
      assert v[0] in v;
      assert s[0] != '"' && s[0] != ',';
      assert Scan(s, false, cur, out) == Scan(s[1..], false, cur + [v[0]], out);
      assert !NeedsQuoting(v[1..]) by {
        forall c | c in v[1..] ensures c in v { }
      }
      ScanPlain(v[1..], rest, cur + [v[0]], out);
      assert cur + [v[0]] + v[1..] == cur + v;
    }
  }

  /** Inside quotes, the doubled-quote body and the closing quote give back the value. */
  lemma {:induction false} ScanQuotedBody(v: string, rest: string, cur: string, out: seq<string>)
    requires rest == [] || rest[0] == ','
    ensures Scan(DoubleQuotes(v) + "\"" + rest, true, cur, out) == Scan(rest, false, cur + v, out)
    decreases |v|
  {
    if v == [] {
      ScanClosingQuote(rest, cur, out);
      assert DoubleQuotes(v) + "\"" + rest == "\"" + rest;
      assert cur + v == cur;
    } else {
      var tail := DoubleQuotes(v[1..]) + "\"" + rest;
      var c := v[0];
      ScanQuotedBody(v[1..], rest, cur + [c], out);
      assert cur + [c] + v[1..] == cur + v;
      QuotedBodyCons(v, rest);
      if c == '"' {
        ScanDoubledQuote(tail, cur, out);
      } else {
        ScanQuotedChar(c, tail, cur, out);
      }
    }
  }

  /** The doubled-quote body splits after its first character's text. */
  lemma QuotedBodyCons(v: string, rest: string)
    requires v != []
    ensures DoubleQuotes(v) + "\"" + rest ==
      (if v[0] == '"' then "\"\"" else [v[0]]) + (DoubleQuotes(v[1..]) + "\"" + rest)
  {
    var head: string := if v[0] == '"' then "\"\"" else [v[0]];
    assert DoubleQuotes(v) == head + DoubleQuotes(v[1..]);
    Regroup(head, DoubleQuotes(v[1..]), "\"", rest);
  }

  lemma Regroup(a: string, b: string, c: string, d: string)
    ensures a + b + c + d == a + (b + c + d)
  {
  }

  /** A quote followed by the end of the line or a comma closes the quoted part, */
  lemma ScanClosingQuote(rest: string, cur: string, out: seq<string>)
    requires rest == [] || rest[0] == ','
    ensures Scan("\"" + rest, true, cur, out) == Scan(rest, false, cur, out)
  {
    var s := "\"" + rest;
    assert s[0] == '"' && s[1..] == rest;
  }

  /** a doubled quote inside quotes stands for one quote, */
  lemma ScanDoubledQuote(tail: string, cur: string, out: seq<string>)
    ensures Scan("\"\"" + tail, true, cur, out) == Scan(tail, true, cur + "\"", out)
  {
    var s := "\"\"" + tail;
    assert s[0] == '"' && s[1] == '"' && s[2..] == tail;
  }

  /** and any other character inside quotes is taken as it is. */
  lemma ScanQuotedChar(c: char, tail: string, cur: string, out: seq<string>)
    requires c != '"'
    ensures Scan([c] + tail, true, cur, out) == Scan(tail, true, cur + [c], out)
  {
    var s := [c] + tail;
    assert s[0] == c && s[1..] == tail;
  }

  /** Scanning an escaped field up to the next comma or the end yields the value. */
  lemma ScanEscaped(v: string, rest: string, out: seq<string>)
    requires rest == [] || rest[0] == ','
    ensures Scan(Escape(v) + rest, false, "", out) == Scan(rest, false, v, out)
  {
    if NeedsQuoting(v) {
      ScanQuoted(v, rest, out);
    } else {
      ScanPlain(v, rest, "", out);
      assert "" + v == v;
    }
  }

  lemma ScanQuoted(v: string, rest: string, out: seq<string>)
    requires NeedsQuoting(v)
    requires rest == [] || rest[0] == ','
    ensures Scan(Escape(v) + rest, false, "", out) == Scan(rest, false, v, out)
  {
    var body := DoubleQuotes(v) + "\"" + rest;
    EscapedBeforeRest(v, rest);
    OpeningQuote(body, out);
    ScanQuotedBody(v, rest, "", out);
    assert "" + v == v;
  }

  lemma EscapedBeforeRest(v: string, rest: string)
    requires NeedsQuoting(v)
    ensures Escape(v) + rest == "\"" + (DoubleQuotes(v) + "\"" + rest)
  {
    EscapeQuoted(v);
  }

  lemma OpeningQuote(body: string, out: seq<string>)
    ensures Scan("\"" + body, false, "", out) == Scan(body, true, "", out)
  {
    var s := "\"" + body;
    assert s[0] == '"' && s[1..] == body;
  }

  lemma {:induction false} ScanJoined(values: seq<string>, out: seq<string>)
    requires values != []
    ensures Scan(JoinEscaped(values), false, "", out) == out + values
    decreases |values|
  {
    if |values| == 1 {
      ScanEscaped(values[0], "", out);
      assert Escape(values[0]) + "" == Escape(values[0]);
      assert [values[0]] == values;
    } else {
      ScanJoinedStep(values, out);
      ScanJoined(values[1..], out + [values[0]]);
      AppendCons(out, values);
    }
  }

  /** One field and its separator: what remains is the scan of the later fields. */
  lemma ScanJoinedStep(values: seq<string>, out: seq<string>)
    requires |values| > 1
    ensures Scan(JoinEscaped(values), false, "", out)
         == Scan(JoinEscaped(values[1..]), false, "", out + [values[0]])
  {
    var tail := JoinEscaped(values[1..]);
    var rest := "," + tail;
    assert JoinEscaped(values) == Escape(values[0]) + rest;
    ScanEscaped(values[0], rest, out);
    SkipSeparator(tail, values[0], out);
  }

  lemma AppendCons<T>(out: seq<T>, values: seq<T>)
    requires values != []
    ensures out + [values[0]] + values[1..] == out + values
  {
  }

  lemma SkipSeparator(tail: string, cur: string, out: seq<string>)
    ensures Scan("," + tail, false, cur, out) == Scan(tail, false, "", out + [cur])
  {
    var s := "," + tail;
    assert s[0] == ',' && s[1..] == tail;
  }

  /**
   * Round trip: parsing the comma-joined escaped values gives back the values, for any
   * non-empty list, including values with commas, quotes, line breaks or nothing in them.
   */
  lemma ParseJoinedRoundTrip(values: seq<string>)
    requires values != []
    ensures Parse(JoinEscaped(values)) == values
  {
    ScanJoined(values, []);
  }

  /** Parse splits a line without quotes at every comma: joining the fields with commas
      gives the line back. */
  lemma {:induction false} ScanUnquoted(s: string, cur: string, out: seq<string>)
    requires '"' !in s
    ensures JoinWithCommas(Scan(s, false, cur, out)) == JoinWithCommas(out + [cur + s])
    decreases |s|
  {
    if s == [] {
      assert cur + s == cur;
    } else {
      assert '"' !in s[1..] by {
        forall c | c in s[1..] ensures c in s { }
      }
      assert s[0] in s;
      if s[0] == ',' {
        ScanUnquoted(s[1..], "", out + [cur]);
        CommaStep(s, cur, out);
      } else {
        ScanUnquoted(s[1..], cur + [s[0]], out);
        assert cur + [s[0]] + s[1..] == cur + s;
      }
    }
  }

  lemma CommaStep(s: string, cur: string, out: seq<string>)
    requires s != [] && s[0] == ','
    ensures JoinWithCommas(out + [cur] + ["" + s[1..]]) == JoinWithCommas(out + [cur + s])
  {
    assert "" + s[1..] == s[1..];
    JoinWithCommasSnoc(out + [cur], s[1..]);
    CommaSplits(s, cur, out);
  }

  /** A comma met in a field ends it: the text before and after it, joined by a comma. */
  lemma CommaSplits(s: string, cur: string, out: seq<string>)
    requires s != [] && s[0] == ','
    ensures JoinWithCommas(out + [cur]) + "," + s[1..] == JoinWithCommas(out + [cur + s])
  {
    JoinWithCommasSnoc(out, cur);
    JoinWithCommasSnoc(out, cur + s);
    if out == [] {
      CommaJoins([], cur, s);
    } else {
      CommaJoins(JoinWithCommas(out) + ",", cur, s);
    }
  }

  lemma CommaJoins(head: string, cur: string, s: string)
    requires s != [] && s[0] == ','
    ensures head + cur + "," + s[1..] == head + (cur + s)
  {
    assert s == "," + s[1..];
  }

  function JoinWithCommas(fields: seq<string>): string {
    if fields == [] then ""
    else if |fields| == 1 then fields[0]
    else JoinWithCommas(fields[..|fields| - 1]) + "," + fields[|fields| - 1]
  }

  lemma JoinWithCommasSnoc(fields: seq<string>, f: string)
    ensures JoinWithCommas(fields + [f]) == if fields == [] then f else JoinWithCommas(fields) + "," + f
  {
    assert (fields + [f])[..|fields|] == fields;
  }

  lemma ParseUnquoted(line: string)
    requires '"' !in line
    ensures JoinWithCommas(Parse(line)) == line
  {
    ScanUnquoted(line, "", []);
    JoinWithCommasSnoc([], line);
  }
}
