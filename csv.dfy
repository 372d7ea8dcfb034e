/**
 * CSV text as exportCSV writes it: each field escaped in the style of
 * section 2 of RFC 4180 (quotes doubled; a field holding ',', a line feed or
 * '"' wrapped in quotes), fields joined by ',' and rows by a line feed. A
 * reader for that text is given as well, so that escaping and joining can be
 * shown to lose nothing.
 */
module Csv {

  /** A field that is written wrapped in quotes. */
  predicate NeedsQuotes(v: string) {
    ',' in v || '\n' in v || '"' in v
  }

  /** v.replace(/"/g, '""') */
  function DoubleQuotes(v: string): (r: string)
    ensures forall c :: c in r <==> c in v
    ensures '"' !in v ==> r == v
  {
    if v == [] then []
    else (if v[0] == '"' then "\"\"" else [v[0]]) + DoubleQuotes(v[1..])
  }

  /** The field as written to the file. */
  function EscapeField(v: string): (r: string)
    ensures (0 < |r| && r[0] == '"') <==> NeedsQuotes(v)
    ensures NeedsQuotes(v) ==> r == "\"" + DoubleQuotes(v) + "\""
    ensures !NeedsQuotes(v) ==> r == v
  {
    var d := DoubleQuotes(v);
    if NeedsQuotes(d) then "\"" + d + "\"" else d
  }

  /** r.map(escape): each field escaped, in place. */
  function EscapeRow(fields: seq<string>): (r: seq<string>)
    ensures |r| == |fields|
    ensures forall i :: 0 <= i < |fields| ==> r[i] == EscapeField(fields[i])
  {
    if fields == [] then [] else [EscapeField(fields[0])] + EscapeRow(fields[1..])
  }

  /** parts.join(sep) */
  function Join(sep: char, parts: seq<string>): string {
    if |parts| == 0 then ""
    else if |parts| == 1 then parts[0]
    else parts[0] + [sep] + Join(sep, parts[1..])
  }

  /** rows.map(r => r.map(escape).join(',')): one line per row, in order. */
  function Lines(rows: seq<seq<string>>): (r: seq<string>)
    ensures |r| == |rows|
    ensures forall i :: 0 <= i < |rows| ==> r[i] == Join(',', EscapeRow(rows[i]))
  {
    if rows == [] then [] else [Join(',', EscapeRow(rows[0]))] + Lines(rows[1..])
  }

  /** The lines joined by a line feed: the text exportCSV writes. */
  function Serialize(rows: seq<seq<string>>): string {
    Join('\n', Lines(rows))
  }

  // ---------------------------------------------------------------------
  // Reading the text back

  /** An unquoted field: everything up to the next ',' or line feed. */
  function Unquoted(s: string): (r: (string, string))
    ensures |r.1| <= |s|
  {
    if s == [] || s[0] == ',' || s[0] == '\n' then ([], s)
    else
      var (f, rest) := Unquoted(s[1..]);
      ([s[0]] + f, rest)
  }

  /** The inside of a quoted field, up to its closing quote, with each "" read as one ". */
  function QuotedBody(s: string): (r: (string, string))
    ensures |r.1| <= |s|
  {
    if s == [] then ([], [])
    else if s[0] == '"' then
      if 1 < |s| && s[1] == '"' then
        var (f, rest) := QuotedBody(s[2..]);
        (['"'] + f, rest)
      else
        ([], s[1..])
    else
      var (f, rest) := QuotedBody(s[1..]);
      ([s[0]] + f, rest)
  }

  /** One field, unescaped, and the text after it. */
  function ParseField(s: string): (r: (string, string))
    ensures |r.1| <= |s|
  {
    if 0 < |s| && s[0] == '"' then QuotedBody(s[1..]) else Unquoted(s)
  }

  /** One row: fields separated by ',', up to the end of the line. */
  function ParseRow(s: string): (r: (seq<string>, string))
    ensures |r.1| <= |s|
    decreases |s|
  {
    var (f, rest) := ParseField(s);
    if 0 < |rest| && rest[0] == ',' then
      var (fs, rest') := ParseRow(rest[1..]);
      ([f] + fs, rest')
    else
      ([f], rest)
  }

  /** The rows of a CSV text, separated by line feeds. */
  function ParseCsv(s: string): seq<seq<string>>
    decreases |s|
  {
    var (row, rest) := ParseRow(s);
    if rest == [] then [row] else [row] + ParseCsv(rest[1..])
  }

  /** What may follow a field: nothing, or the separator before the next field or row. */
  predicate FieldEnd(t: string) {
    t == [] || t[0] == ',' || t[0] == '\n'
  }

  lemma {:induction false} UnquotedRoundTrip(v: string, t: string)
    requires !NeedsQuotes(v) && FieldEnd(t)
    ensures Unquoted(v + t) == (v, t)
  {
    if v == [] {
      assert v + t == t;
    } else {
      assert (v + t)[1..] == v[1..] + t;
      assert forall c :: c in v[1..] ==> c in v;
      UnquotedRoundTrip(v[1..], t);
      assert [v[0]] + v[1..] == v;
    }
  }

  lemma {:induction false} QuotedRoundTrip(v: string, t: string)
    requires t == [] || t[0] != '"'
    ensures QuotedBody(DoubleQuotes(v) + "\"" + t) == (v, t)
  {
    if v == [] {
      var s := DoubleQuotes(v) + "\"" + t;
      assert s == "\"" + t;
      assert s[1..] == t;
    } else {
      QuotedStep(v, t);
      QuotedRoundTrip(v[1..], t);
      assert [v[0]] + v[1..] == v;
    }
  }

  /** The body reader consumes v's first character (a doubled quote for a quote) and carries on with the rest. */
  lemma QuotedStep(v: string, t: string)
    requires v != []
    ensures var rest := QuotedBody(DoubleQuotes(v[1..]) + "\"" + t);
      QuotedBody(DoubleQuotes(v) + "\"" + t) == ([v[0]] + rest.0, rest.1)
  {
    BodyStep(v[0], DoubleQuotes(v), DoubleQuotes(v[1..]), t);
  }

  lemma BodyStep(c: char, d: string, d': string, t: string)
    requires d == (if c == '"' then "\"\"" else [c]) + d'
    ensures var rest := QuotedBody(d' + "\"" + t);
      QuotedBody(d + "\"" + t) == ([c] + rest.0, rest.1)
  {
    var s := d + "\"" + t;
    var tail := d' + "\"" + t;
    if c == '"' {
      assert s == "\"\"" + tail;
      assert s[2..] == tail;
    } else {
      assert s == [c] + tail;
      assert s[1..] == tail;
    }
  }

  /** Unescaping an escaped field gives back the original, whatever follows it. */
  lemma FieldRoundTrip(v: string, t: string)
    requires FieldEnd(t)
    ensures ParseField(EscapeField(v) + t) == (v, t)
  {
    if NeedsQuotes(v) {
      QuotedOpening(EscapeField(v), DoubleQuotes(v), t);
      QuotedRoundTrip(v, t);
    } else {
      PlainOpening(v, t);
      UnquotedRoundTrip(v, t);
    }
  }

  /** A quoted field followed by t opens with '"', and the reader resumes just after it. */
  lemma QuotedOpening(e: string, d: string, t: string)
    requires e == "\"" + d + "\""
    ensures 0 < |e + t| && (e + t)[0] == '"' && (e + t)[1..] == d + "\"" + t
  {
    assert e + t == "\"" + (d + "\"" + t);
  }

  /** A field that needs no quotes does not open with '"', whatever follows it. */
  lemma PlainOpening(v: string, t: string)
    requires !NeedsQuotes(v) && FieldEnd(t)
    ensures !(0 < |v + t| && (v + t)[0] == '"')
  {
    if v != [] {
      assert (v + t)[0] == v[0] && v[0] in v;
    } else {
      assert v + t == t;
    }
  }

  lemma {:induction false} RowRoundTrip(fields: seq<string>, t: string)
    requires 0 < |fields| && (t == [] || t[0] == '\n')
    ensures ParseRow(Join(',', EscapeRow(fields)) + t) == (fields, t)
    decreases |fields|
  {
    if |fields| == 1 {
      LastFieldRoundTrip(fields, t);
    } else {
      FirstFieldRoundTrip(fields, t);
      RowRoundTrip(fields[1..], t);
      assert [fields[0]] + fields[1..] == fields;
    }
  }

  /** A row's only field is read back, and the reader stops at the end of the line. */
  lemma LastFieldRoundTrip(fields: seq<string>, t: string)
    requires |fields| == 1 && (t == [] || t[0] == '\n')
    ensures ParseRow(Join(',', EscapeRow(fields)) + t) == (fields, t)
  {
    var e := EscapeRow(fields);
    assert fields[1..] == [];
    assert e == [EscapeField(fields[0])];
    assert Join(',', e) == EscapeField(fields[0]);
    FieldRoundTrip(fields[0], t);
    assert fields == [fields[0]];
  }

  /** A row's first field is read back, and the reader carries on after its ','. */
  lemma FirstFieldRoundTrip(fields: seq<string>, t: string)
    requires 1 < |fields| && (t == [] || t[0] == '\n')
    ensures var rest := ParseRow(Join(',', EscapeRow(fields[1..])) + t);
      ParseRow(Join(',', EscapeRow(fields)) + t) == ([fields[0]] + rest.0, rest.1)
  {
    var e := EscapeRow(fields);
    var tail := Join(',', EscapeRow(fields[1..])) + t;
    JoinStep([EscapeField(fields[0])] + EscapeRow(fields[1..]), e, t);
    FieldRoundTrip(fields[0], [','] + tail);
    assert ([','] + tail)[1..] == tail;
  }

  /** Joining a row of two or more fields writes the first, a ',' and then the rest joined. */
  lemma JoinStep(parts: seq<string>, e: seq<string>, t: string)
    requires e == parts && 1 < |parts|
    ensures Join(',', e) + t == parts[0] + ([','] + (Join(',', parts[1..]) + t))
  {
  }

  /** Reading the serialised text gives back the rows, when no row is empty. */
  lemma {:induction false} SerializeRoundTrip(rows: seq<seq<string>>)
    requires 0 < |rows| && forall i :: 0 <= i < |rows| ==> 0 < |rows[i]|
    ensures ParseCsv(Serialize(rows)) == rows
    decreases |rows|
  {
    var ls := Lines(rows);
    if |rows| == 1 {
      assert Serialize(rows) + [] == Serialize(rows);
      RowRoundTrip(rows[0], []);
    } else {
      var rest := Serialize(rows[1..]);
      assert ls[1..] == Lines(rows[1..]);
      assert Serialize(rows) == Join(',', EscapeRow(rows[0])) + (['\n'] + rest);
      RowRoundTrip(rows[0], ['\n'] + rest);
      assert (['\n'] + rest)[1..] == rest;
      SerializeRoundTrip(rows[1..]);
      assert [rows[0]] + rows[1..] == rows;
    }
  }
}
