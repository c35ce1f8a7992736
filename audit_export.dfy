/**
 * The audit export endpoint (`app/api/audit/export/route.ts`). A signed-in caller gets the events
 * of an opaque, already ordered read either as a JSON array or as CSV. The CSV quotes every
 * event field as in rules 5 to 7 of section 2 of RFC 4180 (the header names are left bare),
 * and joins lines with a single LF rather than CRLF. The reader `ParseCsv` below is the
 * RFC 4180 grammar with LF line breaks; the export round-trips through it.
 */
module AuditExport {
  import opened Wrappers
  import opened Text
  import opened Types

  const DEFAULT_EXPORT_LIMIT: int := 5000
  const MAX_EXPORT_LIMIT: int := 10000

  /**
   * `Math.min(Number(limit) || 5000, 10000)`. `None` stands for a missing or non-numeric
   * parameter (`Number` gives 0 or NaN, both falsy); a negative number is kept as it is.
   */
  function ExportLimit(limit: Option<int>): (n: int)
    ensures n <= MAX_EXPORT_LIMIT
    ensures limit.None? || limit.value == 0 ==> n == DEFAULT_EXPORT_LIMIT
    ensures limit.Some? && limit.value != 0 ==>
      n == (if limit.value < MAX_EXPORT_LIMIT then limit.value else MAX_EXPORT_LIMIT)
  {
    var requested := if limit.None? || limit.value == 0 then DEFAULT_EXPORT_LIMIT else limit.value;
    if requested < MAX_EXPORT_LIMIT then requested else MAX_EXPORT_LIMIT
  }

  /** `searchParams.get(name) || undefined`: an empty parameter counts as absent. */
  function Present(param: Option<string>): (r: Option<string>)
    ensures r.Some? <==> param.Some? && param.value != ""
    ensures r.Some? ==> r == param
  {
    if param.None? || param.value == "" then None else param
  }

  /** The query parameters as the request carries them; `None` is a missing parameter. */
  datatype ExportParams = ExportParams(
    studyId: Option<string>, from: Option<string>, to: Option<string>,
    format: Option<string>, limit: Option<int>)

  /** The arguments of the export read. */
  datatype ExportQuery = ExportQuery(studyId: Option<string>, from: Option<string>, to: Option<string>, limit: int)

  function QueryOf(params: ExportParams): (q: ExportQuery)
    ensures q.limit <= MAX_EXPORT_LIMIT
    ensures q.studyId.Some? ==> q.studyId.value != ""
    ensures q.from.Some? ==> q.from.value != ""
    ensures q.to.Some? ==> q.to.value != ""
  {
    ExportQuery(Present(params.studyId), Present(params.from), Present(params.to), ExportLimit(params.limit))
  }

  /** `(format || 'json') === 'csv'`: only the exact text `csv` selects CSV. */
  predicate WantsCsv(params: ExportParams) {
    params.format == Some("csv")
  }

  /**
   * How a timestamp column and a metadata column turn into text (`String(v)`); the stored
   * timestamp text and the object's string conversion are not part of this model.
   */
  datatype Renderers = Renderers(timestampText: int -> string, metadataText: Metadata -> string)

  const HEADERS: seq<string> := [
    "id", "event_id", "study_id", "actor_id", "actor_role_at_time", "action_type",
    "target_entity_type", "target_entity_id", "previous_state_hash", "new_state_hash",
    "timestamp", "metadata"]

  /** `e[h]` for each header `h`, in header order; nullable columns stay `None`. */
  function Cells(e: AuditEvent, render: Renderers): (cells: seq<Option<string>>)
    ensures |cells| == |HEADERS|
  {
    [Some(e.id), Some(e.eventId), e.studyId, e.actorId, e.actorRoleAtTime, Some(e.actionType),
     Some(e.targetEntityType), e.targetEntityId, e.previousStateHash, Some(e.newStateHash),
     Some(render.timestampText(e.timestamp)), Some(render.metadataText(e.metadata))]
  }

  /** `s.replace(/"/g, '""')`. */
  function DoubleQuotes(s: string): (r: string)
    ensures |r| == |s| + Count(s, '"')
  {
    if s == [] then [] else (if s[0] == '"' then "\"\"" else [s[0]]) + DoubleQuotes(s[1..])
  }

  /** `escape(v)`: null becomes the empty string; the text is quoted, inner quotes doubled. */
  function Escape(v: Option<string>): (r: string)
    ensures |r| == |v.GetOr("")| + Count(v.GetOr(""), '"') + 2
    ensures |r| >= 2 && r[0] == '"' && r[|r| - 1] == '"'
  {
    "\"" + DoubleQuotes(v.GetOr("")) + "\""
  }

  /** `escape(null)` and `escape('')` are the same field. */
  lemma EscapeNullIsEmpty()
    ensures Escape(None) == Escape(Some("")) == "\"\""
  {
  }

  function EscapeAll(cells: seq<Option<string>>): (fields: seq<string>)
    ensures |fields| == |cells|
    ensures forall i :: 0 <= i < |cells| ==> fields[i] == Escape(cells[i])
  {
    if cells == [] then [] else [Escape(cells[0])] + EscapeAll(cells[1..])
  }

  /** `headers.map(h => escape(e[h])).join(',')`. */
  function RowText(e: AuditEvent, render: Renderers): string {
    Join(EscapeAll(Cells(e, render)), ',')
  }

  function RowTexts(events: seq<AuditEvent>, render: Renderers): (rows: seq<string>)
    ensures |rows| == |events|
    ensures forall i :: 0 <= i < |events| ==> rows[i] == RowText(events[i], render)
  {
    if events == [] then [] else [RowText(events[0], render)] + RowTexts(events[1..], render)
  }

  /** `[headers.join(','), ...rows].join('\n')`. */
  function CsvText(events: seq<AuditEvent>, render: Renderers): string {
    Join([Join(HEADERS, ',')] + RowTexts(events, render), '\n')
  }

  datatype ExportResponse =
    | Unauthorized                      // 401, `{ error: 'Unauthorized' }`
    | CsvBody(text: string)             // 200, text/csv
    | JsonBody(events: seq<AuditEvent>) // 200, the events as a JSON array

  /**
   * `GET`: no user, 401 and nothing read; otherwise the events the read answers for the
   * normalised query, as CSV when asked for exactly that and as JSON otherwise.
   */
  function Get(signedIn: bool, params: ExportParams, read: ExportQuery -> seq<AuditEvent>, render: Renderers)
    : (r: ExportResponse)
    ensures !signedIn <==> r.Unauthorized?
    ensures r.CsvBody? <==> signedIn && WantsCsv(params)
    ensures r.CsvBody? ==> ParseCsv(r.text) == Some([HEADERS] + DecodedRows(read(QueryOf(params)), render))
    ensures r.JsonBody? ==> r.events == read(QueryOf(params))
  {
    if !signedIn then Unauthorized
    else
      var events := read(QueryOf(params));
      if WantsCsv(params) then
        ExportRoundTrip(events, render);
        CsvBody(CsvText(events, render))
      else JsonBody(events)
  }

  // ---------------------------------------------------------------------------------------
  // Reading the CSV back: the grammar of section 2 of RFC 4180, with LF as the line break.

  /** A quoted field after its opening quote: its value and what follows the closing quote. */
  function ParseQuoted(s: string): (r: Option<(string, string)>)
    ensures r.Some? ==> |r.value.1| < |s|
    decreases |s|
  {
    if s == [] then None
    else if s[0] == '"' then
      if |s| >= 2 && s[1] == '"' then
        match ParseQuoted(s[2..])
        case None => None
        case Some((v, rest)) => Some(("\"" + v, rest))
      else Some(([], s[1..]))
    else
      match ParseQuoted(s[1..])
      case None => None
      case Some((v, rest)) => Some(([s[0]] + v, rest))
  }

  /** An unquoted field: everything up to the next comma or line break. */
  function ParseBare(s: string): (r: (string, string))
    ensures r.0 + r.1 == s
  {
    if s == [] || s[0] == ',' || s[0] == '\n' then ([], s)
    else
      var (v, rest) := ParseBare(s[1..]);
      assert s == [s[0]] + s[1..];
      ([s[0]] + v, rest)
  }

  function ParseField(s: string): (r: Option<(string, string)>)
    ensures r.Some? ==> |r.value.1| <= |s|
  {
    if |s| > 0 && s[0] == '"' then ParseQuoted(s[1..]) else Some(ParseBare(s))
  }

  /** The fields of one line, and the text after its line break (`None` at the end of the text). */
  datatype LineParse = LineParse(fields: seq<string>, next: Option<string>)

  function ParseLine(s: string): (r: Option<LineParse>)
    ensures r.Some? && r.value.next.Some? ==> |r.value.next.value| < |s|
    decreases |s|
  {
    match ParseField(s)
    case None => None
    case Some((f, rest)) =>
      if rest == [] then Some(LineParse([f], None))
      else if rest[0] == '\n' then Some(LineParse([f], Some(rest[1..])))
      else if rest[0] == ',' then
        match ParseLine(rest[1..])
        case None => None
        case Some(LineParse(fs, next)) => Some(LineParse([f] + fs, next))
      else None
  }

  /** A whole CSV text: the fields of each line, in order; `None` for malformed quoting. */
  function ParseCsv(s: string): Option<seq<seq<string>>>
    decreases |s|
  {
    match ParseLine(s)
    case None => None
    case Some(LineParse(fs, None)) => Some([fs])
    case Some(LineParse(fs, Some(rest))) =>
      match ParseCsv(rest)
      case None => None
      case Some(lines) => Some([fs] + lines)
  }

  // ---------------------------------------------------------------------------------------
  // The round trip.

  /** A text that stands for a field that can be left unquoted. */
  predicate IsBare(v: string) {
    ',' !in v && '\n' !in v && (v == [] || v[0] != '"')
  }

  /** `text` is a field written for `value`: quoted and escaped, or bare. */
  predicate Encodes(text: string, value: string) {
    text == Escape(Some(value)) || (text == value && IsBare(value))
  }

  /** The cells of an event as they read back: a null cell reads as the empty string. */
  function Decoded(e: AuditEvent, render: Renderers): (fields: seq<string>)
    ensures |fields| == |HEADERS|
    ensures forall i :: 0 <= i < |HEADERS| ==> fields[i] == Cells(e, render)[i].GetOr("")
  {
    var cells := Cells(e, render);
    seq(|cells|, i requires 0 <= i < |cells| => cells[i].GetOr(""))
  }

  function DecodedRows(events: seq<AuditEvent>, render: Renderers): (rows: seq<seq<string>>)
    ensures |rows| == |events|
    ensures forall i :: 0 <= i < |events| ==> rows[i] == Decoded(events[i], render)
  {
    if events == [] then [] else [Decoded(events[0], render)] + DecodedRows(events[1..], render)
  }

  /** A doubled quote inside a quoted field reads as one quote. */
  lemma ParseQuotedDoubled(t: string, v: string, rest: string)
    requires ParseQuoted(t) == Some((v, rest))
    ensures ParseQuoted("\"\"" + t) == Some(("\"" + v, rest))
  {
    assert ("\"\"" + t)[2..] == t;
  }

  /** Any other character inside a quoted field reads as itself. */
  lemma ParseQuotedPlain(c: char, t: string, v: string, rest: string)
    requires c != '"' && ParseQuoted(t) == Some((v, rest))
    ensures ParseQuoted([c] + t) == Some(([c] + v, rest))
  {
    assert ([c] + t)[1..] == t;
  }

  /** The closing quote ends a quoted field when no quote follows it. */
  lemma ParseQuotedClosing(rest: string)
    requires rest == [] || rest[0] != '"'
    ensures ParseQuoted("\"" + rest) == Some(([], rest))
  {
    assert ("\"" + rest)[1..] == rest;
  }

  /** The escape of a text is the escape of its first character followed by that of the rest. */
  lemma DoubleQuotesHead(x: string)
    requires x != []
    ensures DoubleQuotes(x) == (if x[0] == '"' then "\"\"" else [x[0]]) + DoubleQuotes(x[1..])
  {
  }

  /** A doubled quote in front of an escaped tail reads back as one quote in front of the tail. */
  lemma EscapedQuoteStep(x: string, tail: string, close: string, rest: string)
    requires x != [] && x[0] == '"' && ParseQuoted(tail + close) == Some((x[1..], rest))
    ensures ParseQuoted(("\"\"" + tail) + close) == Some((x, rest))
  {
    assert ("\"\"" + tail) + close == "\"\"" + (tail + close);
    ParseQuotedDoubled(tail + close, x[1..], rest);
    assert [x[0]] + x[1..] == x;
  }

  /** Any other character in front of an escaped tail reads back as itself. */
  lemma EscapedPlainStep(x: string, tail: string, close: string, rest: string)
    requires x != [] && x[0] != '"' && ParseQuoted(tail + close) == Some((x[1..], rest))
    ensures ParseQuoted(([x[0]] + tail) + close) == Some((x, rest))
  {
    assert ([x[0]] + tail) + close == [x[0]] + (tail + close);
    ParseQuotedPlain(x[0], tail + close, x[1..], rest);
    assert [x[0]] + x[1..] == x;
  }

  /** The escaped text of `x` and the closing quote read back as `x`. */
  lemma {:induction false} ParseQuotedEscaped(x: string, rest: string)
    requires rest == [] || rest[0] != '"'
    ensures ParseQuoted(DoubleQuotes(x) + ("\"" + rest)) == Some((x, rest))
  {
    if x == [] {
      assert DoubleQuotes(x) + ("\"" + rest) == "\"" + rest;
      ParseQuotedClosing(rest);
    } else {
      ParseQuotedEscaped(x[1..], rest);
      DoubleQuotesHead(x);
      if x[0] == '"' {
        EscapedQuoteStep(x, DoubleQuotes(x[1..]), "\"" + rest, rest);
      } else {
        EscapedPlainStep(x, DoubleQuotes(x[1..]), "\"" + rest, rest);
      }
    }
  }

  /** A text without separators, followed by a separator or nothing, reads back as a bare field. */
  lemma {:induction false} ParseBareOf(v: string, rest: string)
    requires ',' !in v && '\n' !in v
    requires rest == [] || rest[0] == ',' || rest[0] == '\n'
    ensures ParseBare(v + rest) == (v, rest)
  {
    if v == [] {
      assert v + rest == rest;
    } else {
      var s := v + rest;
      assert s[0] == v[0] && v[0] in v;
      assert s[1..] == v[1..] + rest;
      ParseBareOf(v[1..], rest);
      assert ParseBare(s) == ([v[0]] + v[1..], rest);
      assert [v[0]] + v[1..] == v;
    }
  }

  /** Each written field reads back as its value, leaving the separator that follows it. */
  lemma FieldRoundTrip(text: string, value: string, rest: string)
    requires Encodes(text, value)
    requires rest == [] || rest[0] == ',' || rest[0] == '\n'
    ensures ParseField(text + rest) == Some((value, rest))
  {
    if text == Escape(Some(value)) {
      assert text + rest == "\"" + (DoubleQuotes(value) + ("\"" + rest));
      assert (text + rest)[1..] == DoubleQuotes(value) + ("\"" + rest);
      ParseQuotedEscaped(value, rest);
    } else {
      ParseBareOf(value, rest);
    }
  }

  /** A written field in front of a comma and of a line that reads back, reads back with it. */
  lemma LineRoundTripStep(text: string, value: string, joined: string, tail: string,
                          fields: seq<string>, next: Option<string>)
    requires Encodes(text, value) && ParseLine(joined + tail) == Some(LineParse(fields, next))
    ensures ParseLine((text + ([','] + joined)) + tail) == Some(LineParse([value] + fields, next))
  {
    var rest := joined + tail;
    assert (text + ([','] + joined)) + tail == text + ([','] + rest);
    FieldRoundTrip(text, value, [','] + rest);
    assert ([','] + rest)[1..] == rest;
  }

  /** A line of written fields, followed by the end of the text or a line break, reads back. */
  lemma {:induction false} LineRoundTrip(texts: seq<string>, values: seq<string>, tail: string)
    requires |texts| == |values| >= 1
    requires forall i :: 0 <= i < |texts| ==> Encodes(texts[i], values[i])
    requires tail == [] || tail[0] == '\n'
    ensures ParseLine(Join(texts, ',') + tail) ==
      Some(LineParse(values, if tail == [] then None else Some(tail[1..])))
  {
    if |texts| == 1 {
      assert Join(texts, ',') == texts[0];
      FieldRoundTrip(texts[0], values[0], tail);
      assert values == [values[0]];
    } else {
      var next := if tail == [] then None else Some(tail[1..]);
      LineRoundTrip(texts[1..], values[1..], tail);
      JoinCons(texts, ',');
      LineRoundTripStep(texts[0], values[0], Join(texts[1..], ','), tail, values[1..], next);
      assert [values[0]] + values[1..] == values;
    }
  }

  /** `line` is the comma-joined written form of `values`. */
  ghost predicate LineEncodes(line: string, values: seq<string>) {
    exists texts: seq<string> :: |texts| == |values| >= 1 && line == Join(texts, ',') &&
      forall i :: 0 <= i < |texts| ==> Encodes(texts[i], values[i])
  }

  /** A written line, followed by the end of the text or a line break, reads back. */
  lemma EncodedLineRoundTrip(line: string, values: seq<string>, tail: string)
    requires LineEncodes(line, values)
    requires tail == [] || tail[0] == '\n'
    ensures ParseLine(line + tail) == Some(LineParse(values, if tail == [] then None else Some(tail[1..])))
  {
    var texts :| |texts| == |values| >= 1 && line == Join(texts, ',') &&
      forall i :: 0 <= i < |texts| ==> Encodes(texts[i], values[i]);
    LineRoundTrip(texts, values, tail);
  }

  /** A last line read is the whole of what remains. */
  lemma ParseCsvLast(s: string, fields: seq<string>)
    requires ParseLine(s) == Some(LineParse(fields, None))
    ensures ParseCsv(s) == Some([fields])
  {
  }

  /** A line read before a line break comes in front of the lines read after it. */
  lemma ParseCsvNext(s: string, fields: seq<string>, rest: string, lines: seq<seq<string>>)
    requires ParseLine(s) == Some(LineParse(fields, Some(rest))) && ParseCsv(rest) == Some(lines)
    ensures ParseCsv(s) == Some([fields] + lines)
  {
  }

  /** A written line in front of a line break and of a text that reads back, reads back with it. */
  lemma TextRoundTripStep(first: string, fields: seq<string>, rest: string, lines: seq<seq<string>>)
    requires LineEncodes(first, fields) && ParseCsv(rest) == Some(lines)
    ensures ParseCsv(first + (['\n'] + rest)) == Some([fields] + lines)
  {
    EncodedLineRoundTrip(first, fields, ['\n'] + rest);
    assert (['\n'] + rest)[1..] == rest;
    ParseCsvNext(first + (['\n'] + rest), fields, rest, lines);
  }

  /** Lines of written fields joined by line breaks read back line by line. */
  lemma {:induction false} TextRoundTrip(lines: seq<string>, values: seq<seq<string>>)
    requires |lines| == |values| >= 1
    requires forall i :: 0 <= i < |lines| ==> LineEncodes(lines[i], values[i])
    ensures ParseCsv(Join(lines, '\n')) == Some(values)
  {
    if |lines| == 1 {
      EncodedLineRoundTrip(lines[0], values[0], []);
      assert lines[0] + [] == Join(lines, '\n');
      ParseCsvLast(Join(lines, '\n'), values[0]);
      assert values == [values[0]];
    } else {
      TextRoundTrip(lines[1..], values[1..]);
      JoinCons(lines, '\n');
      TextRoundTripStep(lines[0], values[0], Join(lines[1..], '\n'), values[1..]);
      assert [values[0]] + values[1..] == values;
    }
  }

  lemma HeaderLineEncodes()
    ensures LineEncodes(Join(HEADERS, ','), HEADERS)
  {
    assert forall i :: 0 <= i < |HEADERS| ==> IsBare(HEADERS[i]);
    assert forall i :: 0 <= i < |HEADERS| ==> Encodes(HEADERS[i], HEADERS[i]);
  }

  lemma RowEncodes(e: AuditEvent, render: Renderers)
    ensures LineEncodes(RowText(e, render), Decoded(e, render))
  {
    var texts := EscapeAll(Cells(e, render));
    forall i | 0 <= i < |texts| ensures Encodes(texts[i], Decoded(e, render)[i]) {
      assert texts[i] == Escape(Some(Decoded(e, render)[i]));
    }
  }

  /**
   * The export reads back, under RFC 4180 with LF line breaks, as the twelve header names
   * followed by one line per event holding its twelve columns in header order, a null column
   * as the empty string.
   */
  lemma ExportRoundTrip(events: seq<AuditEvent>, render: Renderers)
    ensures ParseCsv(CsvText(events, render)) == Some([HEADERS] + DecodedRows(events, render))
  {
    var lines := [Join(HEADERS, ',')] + RowTexts(events, render);
    var values := [HEADERS] + DecodedRows(events, render);
    HeaderLineEncodes();
    forall i | 0 <= i < |lines| ensures LineEncodes(lines[i], values[i]) {
      if i > 0 {
        RowEncodes(events[i - 1], render);
      }
    }
    TextRoundTrip(lines, values);
  }

  /** Reading an escaped field back (strip the outer quotes, collapse `""`) gives the input. */
  lemma EscapeRoundTrip(v: Option<string>)
    ensures ParseField(Escape(v)) == Some((v.GetOr(""), []))
  {
    FieldRoundTrip(Escape(v), v.GetOr(""), []);
    assert Escape(v) + [] == Escape(v);
  }
}
