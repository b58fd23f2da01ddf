/**
 * CSV framing after tokenisation: the tokenizer's records are gathered (skipping bad
 * lines when asked to), the header row is taken (renamed by column alias) or positional
 * names "1".."n" are made up, every data row is zipped with the header into a
 * name-to-cell map, and the maps are either handed to the frame builder as they are
 * or first sent through a JSON root selector.
 *
 * Go's `encoding/csv` reader is not modelled: its output for the input text is a
 * parameter, a sequence of records and line errors. The frame builder that receives
 * the result (`gframer.ToDataFrame`) is not part of this model either.
 */
module CsvFramer {
  import opened Wrappers
  import opened Text
  import JsonFramer

  /** One call of the tokenizer's Read: a record, or an error for that line. */
  datatype ReadItem = Rec(fields: seq<string>) | LineErr

  /** A column selector; only Selector and Alias matter here, the rest is passed on. */
  datatype ColumnSelector = ColumnSelector(selector: string, alias: string, kind: string, timeFormat: string)

  /** The options ToFrame reads itself (delimiter, comment and column-count options go to the tokenizer). */
  datatype FramerOptions = FramerOptions(
    frameName: string,
    columns: seq<ColumnSelector>,
    skipLinesWithError: bool,
    noHeaders: bool,
    framerType: string,
    rootSelector: string)

  datatype CsvError =
    | ErrEmptyCsv
    | ErrReadingCsvResponse
    | ErrMarshalingRows                             // json.Marshal of the rows failed
    | SelectorFailed(cause: JsonFramer.SelectorError)
    | ErrDecodingSelected                           // json.Unmarshal of the selected text failed

  /** The data handed to the frame builder: the row maps, or what the root selector made of them. */
  datatype FramerInput = Rows(items: seq<map<string, string>>) | Document(doc: JsonFramer.Json)

  /** A call of the frame builder: its data, the frame name and the columns. */
  datatype Handoff = Handoff(input: FramerInput, frameName: string, columns: seq<ColumnSelector>)

  // ---------------------------------------------------------------------------------
  // Reading

  /** The records among the tokenizer's items, in order; line errors are dropped. */
  function RecordsOf(tokens: seq<ReadItem>): seq<seq<string>> {
    if tokens == [] then []
    else
      var last := tokens[|tokens| - 1];
      RecordsOf(tokens[..|tokens| - 1]) + (if last.Rec? then [last.fields] else [])
  }

  predicate HasLineErr(tokens: seq<ReadItem>) {
    exists i :: 0 <= i < |tokens| && tokens[i].LineErr?
  }

  /** Reading distributes over concatenation: records stay in input order and line errors vanish. */
  lemma {:induction false} RecordsOfAppend(t1: seq<ReadItem>, t2: seq<ReadItem>)
    ensures RecordsOf(t1 + t2) == RecordsOf(t1) + RecordsOf(t2)
    decreases |t2|
  {
    if t2 == [] {
      assert t1 + t2 == t1;
    } else {
      assert (t1 + t2)[..|t1 + t2| - 1] == t1 + t2[..|t2| - 1];
      RecordsOfAppend(t1, t2[..|t2| - 1]);
    }
  }

  /** A single item reads as its record, or as nothing when it is a line error. */
  lemma RecordsOfSingle(item: ReadItem)
    ensures RecordsOf([item]) == if item.Rec? then [item.fields] else []
  {
    assert [item][..0] == [];
  }

  // ---------------------------------------------------------------------------------
  // Header

  /** Column `col` renames header cell `cell`: same selector, an alias, and no root selector. */
  predicate Renames(col: ColumnSelector, cell: string, rootSelector: string) {
    col.selector == cell && col.alias != "" && rootSelector == ""
  }

  /** The cell after the first `n` columns have been tried against it: the last renaming alias wins. */
  function Renamed(cell: string, columns: seq<ColumnSelector>, rootSelector: string, n: nat): string
    requires n <= |columns|
  {
    if n == 0 then cell
    else if Renames(columns[n - 1], cell, rootSelector) then columns[n - 1].alias
    else Renamed(cell, columns, rootSelector, n - 1)
  }

  /** A header cell that no column renames is kept as it is. */
  lemma {:induction false} RenamedNoMatch(cell: string, columns: seq<ColumnSelector>, rootSelector: string, n: nat)
    requires n <= |columns|
    requires forall j :: 0 <= j < n ==> !Renames(columns[j], cell, rootSelector)
    ensures Renamed(cell, columns, rootSelector, n) == cell
  {
    if n > 0 {
      RenamedNoMatch(cell, columns, rootSelector, n - 1);
    }
  }

  /** A header cell is renamed to the alias of the last column that renames it. */
  lemma {:induction false} RenamedLastMatch(cell: string, columns: seq<ColumnSelector>, rootSelector: string,
                                            n: nat, j: nat)
    requires j < n <= |columns|
    requires Renames(columns[j], cell, rootSelector)
    requires forall k :: j < k < n ==> !Renames(columns[k], cell, rootSelector)
    ensures Renamed(cell, columns, rootSelector, n) == columns[j].alias
  {
    if j < n - 1 {
      RenamedLastMatch(cell, columns, rootSelector, n - 1, j);
    }
  }

  /** With a root selector set, no header cell is renamed. */
  lemma NoRenameUnderRootSelector(cell: string, columns: seq<ColumnSelector>, rootSelector: string)
    requires rootSelector != ""
    ensures Renamed(cell, columns, rootSelector, |columns|) == cell
  {
    RenamedNoMatch(cell, columns, rootSelector, |columns|);
  }

  /** The header with every cell renamed on its own, against its original text. */
  function RenamedHeader(header: seq<string>, columns: seq<ColumnSelector>, rootSelector: string): seq<string> {
    seq(|header|, i requires 0 <= i < |header| => Renamed(header[i], columns, rootSelector, |columns|))
  }

  /** The positional names "1", "2", ..., "n". */
  function PositionalHeader(n: nat): seq<string> {
    seq(n, i requires 0 <= i < n => DecimalString(i + 1))
  }

  /** Positional names never repeat. */
  lemma PositionalHeaderDistinct(n: nat)
    ensures forall i, j :: 0 <= i < n && 0 <= j < n && i != j ==> PositionalHeader(n)[i] != PositionalHeader(n)[j]
  {
    forall i, j | 0 <= i < n && 0 <= j < n && i != j
      ensures PositionalHeader(n)[i] != PositionalHeader(n)[j]
    {
      DecimalStringInjective(i + 1, j + 1);
    }
  }

  /** The header: the first record renamed, or positional names as many as the first record has cells. */
  function Header(parsed: seq<seq<string>>, options: FramerOptions): seq<string>
    requires !options.noHeaders ==> |parsed| >= 1
  {
    if !options.noHeaders then RenamedHeader(parsed[0], options.columns, options.rootSelector)
    else if |parsed| > 0 then PositionalHeader(|parsed[0]|)
    else []
  }

  /** The records that become data rows: all but the header, or all of them without headers. */
  function DataRows(parsed: seq<seq<string>>, options: FramerOptions): seq<seq<string>>
    requires !options.noHeaders ==> |parsed| >= 1
  {
    if !options.noHeaders then parsed[1..] else parsed
  }

  // ---------------------------------------------------------------------------------
  // Rows to maps

  /** The map built from the first `n` header cells: each one present in the row writes its cell. */
  function ZipPrefix(header: seq<string>, row: seq<string>, n: nat): map<string, string>
    requires n <= |header|
  {
    if n == 0 then map[]
    else if n - 1 < |row| then ZipPrefix(header, row, n - 1)[header[n - 1] := row[n - 1]]
    else ZipPrefix(header, row, n - 1)
  }

  function Zip(header: seq<string>, row: seq<string>): map<string, string> {
    ZipPrefix(header, row, |header|)
  }

  function Min(a: nat, b: nat): nat {
    if a <= b then a else b
  }

  /** The keys of a zipped prefix are the header names at positions the row reaches. */
  lemma {:induction false} ZipPrefixKeys(header: seq<string>, row: seq<string>, n: nat)
    requires n <= |header|
    ensures forall k :: k in ZipPrefix(header, row, n) <==>
              exists j :: 0 <= j < Min(n, |row|) && header[j] == k
  {
    if n > 0 {
      ZipPrefixKeys(header, row, n - 1);
      if n - 1 < |row| {
        assert Min(n, |row|) == Min(n - 1, |row|) + 1;
      } else {
        assert Min(n, |row|) == Min(n - 1, |row|);
      }
    }
  }

  /**
   * Each name maps to the cell under its rightmost position the row reaches: extra cells are
   * dropped, and of duplicate names the rightmost cell wins.
   */
  lemma {:induction false} ZipPrefixValues(header: seq<string>, row: seq<string>, n: nat)
    requires n <= |header|
    ensures forall j :: 0 <= j < Min(n, |row|)
                        && (forall j' :: j < j' < Min(n, |row|) ==> header[j'] != header[j]) ==>
              header[j] in ZipPrefix(header, row, n) && ZipPrefix(header, row, n)[header[j]] == row[j]
  {
    if n > 0 {
      ZipPrefixValues(header, row, n - 1);
      var m := Min(n, |row|);
      var prev := ZipPrefix(header, row, n - 1);
      forall j | 0 <= j < m && (forall j' :: j < j' < m ==> header[j'] != header[j])
        ensures header[j] in ZipPrefix(header, row, n) && ZipPrefix(header, row, n)[header[j]] == row[j]
      {
        if n - 1 < |row| {
          if j < n - 1 {
            assert header[n - 1] != header[j];
            assert header[j] in prev && prev[header[j]] == row[j];
          }
        } else {
          assert m == Min(n - 1, |row|);
        }
      }
    }
  }

  /** The keys of a zipped row are the header names at positions the row reaches. */
  lemma ZipKeys(header: seq<string>, row: seq<string>)
    ensures forall k :: k in Zip(header, row) <==>
              exists j :: 0 <= j < Min(|header|, |row|) && header[j] == k
  {
    ZipPrefixKeys(header, row, |header|);
  }

  /** A name that does not occur again further right maps to the cell under it. */
  lemma ZipAt(header: seq<string>, row: seq<string>, j: nat)
    requires j < Min(|header|, |row|)
    requires forall j' :: j < j' < Min(|header|, |row|) ==> header[j'] != header[j]
    ensures header[j] in Zip(header, row) && Zip(header, row)[header[j]] == row[j]
  {
    ZipPrefixValues(header, row, |header|);
  }

  /** The row maps handed on: one per data row, in order, each zipped with the header. */
  function Items(parsed: seq<seq<string>>, options: FramerOptions): seq<map<string, string>>
    requires !options.noHeaders ==> |parsed| >= 1
  {
    var header := Header(parsed, options);
    var rows := DataRows(parsed, options);
    seq(|rows|, i requires 0 <= i < |rows| => Zip(header, rows[i]))
  }

  /** One item per data row: the header record is not a row, and without headers every record is one. */
  lemma ItemCount(parsed: seq<seq<string>>, options: FramerOptions)
    requires !options.noHeaders ==> |parsed| >= 1
    ensures |Items(parsed, options)| == if options.noHeaders then |parsed| else |parsed| - 1
    ensures forall i :: 0 <= i < |Items(parsed, options)| ==>
              Items(parsed, options)[i] == Zip(Header(parsed, options), parsed[if options.noHeaders then i else i + 1])
  {
  }

  /** The positional names "1" up to "m". */
  function PositionalNames(m: nat): set<string> {
    set j | 1 <= j <= m :: DecimalString(j)
  }

  /** Zipping with positional names: the keys are "1" up to the shorter length. */
  lemma ZipPositionalKeys(n: nat, row: seq<string>)
    ensures Zip(PositionalHeader(n), row).Keys == PositionalNames(Min(n, |row|))
  {
    var header := PositionalHeader(n);
    var m := Min(n, |row|);
    ZipKeys(header, row);
    forall k | k in Zip(header, row) ensures k in PositionalNames(m) {
      var j :| 0 <= j < m && header[j] == k;
      assert k == DecimalString(j + 1);
    }
    forall k | k in PositionalNames(m) ensures k in Zip(header, row) {
      var j :| 1 <= j <= m && k == DecimalString(j);
      assert header[j - 1] == k;
    }
  }

  /** Zipping with positional names: name "j" holds cell j - 1. */
  lemma ZipPositionalValues(n: nat, row: seq<string>, j: nat)
    requires 1 <= j <= Min(n, |row|)
    ensures DecimalString(j) in Zip(PositionalHeader(n), row)
    ensures Zip(PositionalHeader(n), row)[DecimalString(j)] == row[j - 1]
  {
    var header := PositionalHeader(n);
    forall j' | j - 1 < j' < Min(n, |row|) ensures header[j'] != header[j - 1] {
      DecimalStringInjective(j' + 1, j);
    }
    ZipAt(header, row, j - 1);
  }

  /**
   * Without headers, row `i` maps "1", "2", ... to its cells, as far as both it and the
   * first record reach: name "j" holds cell j - 1.
   */
  lemma NoHeaderItems(parsed: seq<seq<string>>, options: FramerOptions, i: nat)
    requires options.noHeaders && i < |parsed|
    ensures Items(parsed, options)[i].Keys == PositionalNames(Min(|parsed[0]|, |parsed[i]|))
    ensures forall j :: 1 <= j <= Min(|parsed[0]|, |parsed[i]|) ==>
              Items(parsed, options)[i][DecimalString(j)] == parsed[i][j - 1]
  {
    assert Header(parsed, options) == PositionalHeader(|parsed[0]|);
    assert Items(parsed, options)[i] == Zip(PositionalHeader(|parsed[0]|), parsed[i]);
    ZipPositionalKeys(|parsed[0]|, parsed[i]);
    forall j | 1 <= j <= Min(|parsed[0]|, |parsed[i]|) {
      ZipPositionalValues(|parsed[0]|, parsed[i], j);
    }
  }

  /** Without headers and without records there is no header and there are no rows. */
  lemma NoHeadersNoRecords(options: FramerOptions)
    requires options.noHeaders
    ensures Header([], options) == [] && Items([], options) == []
  {
  }

  // ---------------------------------------------------------------------------------
  // Root selector

  /** The JSON document json.Marshal writes for the row maps: an array of string-valued objects. */
  function ItemsJson(items: seq<map<string, string>>): JsonFramer.Json {
    JsonFramer.JArray(seq(|items|, i requires 0 <= i < |items| =>
      JsonFramer.JObject(map k | k in items[i] :: JsonFramer.JString(items[i][k]))))
  }

  /** The marshalled document determines the row maps: distinct row lists never marshal alike. */
  lemma ItemsJsonInjective(a: seq<map<string, string>>, b: seq<map<string, string>>)
    requires ItemsJson(a) == ItemsJson(b)
    ensures a == b
  {
    assert |a| == |ItemsJson(a).items| == |ItemsJson(b).items| == |b|;
    forall i | 0 <= i < |a| ensures a[i] == b[i] {
      var ma := ItemsJson(a).items[i].members;
      var mb := ItemsJson(b).items[i].members;
      assert ma == mb;
      assert a[i].Keys == ma.Keys == b[i].Keys;
      forall k | k in a[i] ensures a[i][k] == b[i][k] {
        assert ma[k] == JsonFramer.JString(a[i][k]);
        assert mb[k] == JsonFramer.JString(b[i][k]);
      }
    }
  }

  /**
   * ApplyRootSelector of the CSV framer: marshal, select, decode. When the selected text
   * does not decode, the error returned is the selector's error, which is nil at that
   * point, so the call yields a nil document (`JNull` here) and no error.
   */
  function ApplyRootSelector(items: seq<map<string, string>>, rootSelector: string, framerType: string,
                             lib: JsonFramer.Libraries): Result<JsonFramer.Json, CsvError>
  {
    match lib.marshal(ItemsJson(items))
    case None => Err(ErrMarshalingRows)
    case Some(text) =>
      var selected := JsonFramer.ApplyRootSelector(text, rootSelector, framerType, lib);
      if selected.err.Some? then Err(SelectorFailed(selected.err.value))
      else match lib.unmarshal(selected.out)
        case None => Ok(JsonFramer.JNull)
        case Some(doc) => Ok(doc)
  }

  /**
   * A marshal or selector error surfaces as that stage's error; otherwise the result is the
   * decoding of the selected text, or a nil document when it does not decode.
   */
  lemma ApplyRootSelectorOutcomes(items: seq<map<string, string>>, rootSelector: string, framerType: string,
                                  lib: JsonFramer.Libraries)
    ensures lib.marshal(ItemsJson(items)).None? ==>
              ApplyRootSelector(items, rootSelector, framerType, lib) == Err(ErrMarshalingRows)
    ensures lib.marshal(ItemsJson(items)).Some? ==>
              var selected := JsonFramer.ApplyRootSelector(lib.marshal(ItemsJson(items)).value, rootSelector, framerType, lib);
              && (selected.err.Some? ==>
                    ApplyRootSelector(items, rootSelector, framerType, lib) == Err(SelectorFailed(selected.err.value)))
              && (selected.err.None? && lib.unmarshal(selected.out).None? ==>
                    ApplyRootSelector(items, rootSelector, framerType, lib) == Ok(JsonFramer.JNull))
    ensures lib.marshal(ItemsJson(items)).Some? ==>
              var selected := JsonFramer.ApplyRootSelector(lib.marshal(ItemsJson(items)).value, rootSelector, framerType, lib);
              selected.err.None? && lib.unmarshal(selected.out).Some? ==>
                ApplyRootSelector(items, rootSelector, framerType, lib) == Ok(lib.unmarshal(selected.out).value)
  {
  }

  /**
   * ApplyRootSelector with the decoding error reported, as the `jsonUnMarshallErr != nil`
   * test at framer.go:110 evidently intends.
   */
  function ApplyRootSelectorReportingDecodeError(items: seq<map<string, string>>, rootSelector: string,
                                                 framerType: string, lib: JsonFramer.Libraries)
    : Result<JsonFramer.Json, CsvError>
  {
    match lib.marshal(ItemsJson(items))
    case None => Err(ErrMarshalingRows)
    case Some(text) =>
      var selected := JsonFramer.ApplyRootSelector(text, rootSelector, framerType, lib);
      if selected.err.Some? then Err(SelectorFailed(selected.err.value))
      else match lib.unmarshal(selected.out)
        case None => Err(ErrDecodingSelected)
        case Some(doc) => Ok(doc)
  }

  /** Marshalling and selection succeed, but the selected text is not JSON. */
  predicate SelectedTextUndecodable(items: seq<map<string, string>>, rootSelector: string, framerType: string,
                                    lib: JsonFramer.Libraries)
  {
    match lib.marshal(ItemsJson(items))
    case None => false
    case Some(text) =>
      var selected := JsonFramer.ApplyRootSelector(text, rootSelector, framerType, lib);
      selected.err.None? && lib.unmarshal(selected.out).None?
  }

  /**
   * The two routines differ exactly on an undecodable selected text: there the code as
   * written reports a nil document and no error, and the corrected routine the decoding
   * error; on every other input they agree.
   */
  lemma ReportingDiffersOnlyOnDecodeFailure(items: seq<map<string, string>>, rootSelector: string,
                                            framerType: string, lib: JsonFramer.Libraries)
    ensures SelectedTextUndecodable(items, rootSelector, framerType, lib) ==>
              && ApplyRootSelector(items, rootSelector, framerType, lib) == Ok(JsonFramer.JNull)
              && ApplyRootSelectorReportingDecodeError(items, rootSelector, framerType, lib) == Err(ErrDecodingSelected)
    ensures !SelectedTextUndecodable(items, rootSelector, framerType, lib) ==>
              ApplyRootSelectorReportingDecodeError(items, rootSelector, framerType, lib)
              == ApplyRootSelector(items, rootSelector, framerType, lib)
  {
  }

  /**
   * The code as written reports success although the selected text is not JSON: a gjson
   * path whose match is not a JSON text (here the bare word `abc`) gives a nil document and
   * no error, where the corrected routine reports the decoding error.
   */
  lemma DecodeErrorSwallowed()
    ensures var lib := JsonFramer.Libraries(
              (doc, path) => Some("abc"), sel => true, (sel, d) => [],
              text => if text == "abc" then None else Some(JsonFramer.JNull),
              d => Some("[]"), sel => JsonFramer.CompiledNil, (sel, d) => None);
            && lib.unmarshal("abc").None?
            && ApplyRootSelector([], "x", JsonFramer.FramerTypeGJSON, lib) == Ok(JsonFramer.JNull)
            && ApplyRootSelectorReportingDecodeError([], "x", JsonFramer.FramerTypeGJSON, lib) == Err(ErrDecodingSelected)
  {
  }

  // ---------------------------------------------------------------------------------
  // ToFrame

  /** What ToFrame hands the frame builder once reading has succeeded. */
  function Assemble(parsed: seq<seq<string>>, options: FramerOptions, lib: JsonFramer.Libraries): Result<Handoff, CsvError>
    requires !options.noHeaders ==> |parsed| >= 1
  {
    var items := Items(parsed, options);
    if options.rootSelector == "" then Ok(Handoff(Rows(items), options.frameName, options.columns))
    else match ApplyRootSelector(items, options.rootSelector, options.framerType, lib)
      case Err(e) => Err(e)
      case Ok(doc) => Ok(Handoff(Document(doc), options.frameName, options.columns))
  }

  /**
   * ToFrame up to the frame builder. `tokens` is what the CSV reader yields for `csvString`.
   * With headers, at least one record must be read, or the code indexes an empty slice.
   */
  method ToFrame(csvString: string, tokens: seq<ReadItem>, options: FramerOptions, lib: JsonFramer.Libraries)
    returns (r: Result<Handoff, CsvError>)
    requires !IsBlank(csvString) && !options.noHeaders && (options.skipLinesWithError || !HasLineErr(tokens))
             ==> |RecordsOf(tokens)| >= 1
    ensures IsBlank(csvString) ==> r == Err(ErrEmptyCsv)
    ensures !IsBlank(csvString) && !options.skipLinesWithError && HasLineErr(tokens) ==>
              r == Err(ErrReadingCsvResponse)
    ensures !IsBlank(csvString) && (options.skipLinesWithError || !HasLineErr(tokens)) ==>
              r == Assemble(RecordsOf(tokens), options, lib)
  {
    if IsBlank(csvString) {
      return Err(ErrEmptyCsv);
    }
    var read := ReadAll(tokens, options.skipLinesWithError);
    if read.Err? {
      return Err(read.error);
    }
    var parsed := read.value;
    var header: seq<string> := [];
    var records: seq<seq<string>> := [];
    if !options.noHeaders {
      header := RenameHeader(parsed[0], options.columns, options.rootSelector);
      records := parsed[1..];
    }
    if options.noHeaders {
      records := parsed;
      if |records| > 0 {
        header := MakePositionalHeader(|records[0]|);
      }
    }
    assert header == Header(parsed, options);
    var out := ZipRows(header, records);
    assert out == Items(parsed, options);
    if options.rootSelector != "" {
      var outObj := ApplyRootSelector(out, options.rootSelector, options.framerType, lib);
      if outObj.Err? {
        return Err(outObj.error);
      }
      return Ok(Handoff(Document(outObj.value), options.frameName, options.columns));
    }
    r := Ok(Handoff(Rows(out), options.frameName, options.columns));
  }

  /** The read loop: keep each record, and on a line error either stop or skip the line. */
  method ReadAll(tokens: seq<ReadItem>, skipLinesWithError: bool) returns (r: Result<seq<seq<string>>, CsvError>)
    ensures r == if !skipLinesWithError && HasLineErr(tokens) then Err(ErrReadingCsvResponse)
                 else Ok(RecordsOf(tokens))
  {
    var parsed: seq<seq<string>> := [];
    var t := 0;
    while t < |tokens|
      invariant 0 <= t <= |tokens|
      invariant parsed == RecordsOf(tokens[..t])
      invariant !skipLinesWithError ==> forall i :: 0 <= i < t ==> tokens[i].Rec?
    {
      assert tokens[..t + 1][..t] == tokens[..t];
      if tokens[t].Rec? {
        parsed := parsed + [tokens[t].fields];
      } else if !skipLinesWithError {
        return Err(ErrReadingCsvResponse);
      }
      t := t + 1;
    }
    assert tokens[..t] == tokens;
    r := Ok(parsed);
  }

  /** The renaming loops: every header cell is compared with every column's selector, in order. */
  method RenameHeader(record: seq<string>, columns: seq<ColumnSelector>, rootSelector: string)
    returns (header: seq<string>)
    ensures header == RenamedHeader(record, columns, rootSelector)
  {
    header := record;
    var idx := 0;
    while idx < |header|
      invariant |header| == |record| && 0 <= idx <= |header|
      invariant forall j :: 0 <= j < idx ==> header[j] == Renamed(record[j], columns, rootSelector, |columns|)
      invariant forall j :: idx <= j < |header| ==> header[j] == record[j]
    {
      var hItem := header[idx];
      ghost var before := header;
      var c := 0;
      while c < |columns|
        invariant 0 <= c <= |columns| && |header| == |record|
        invariant header[idx] == Renamed(hItem, columns, rootSelector, c)
        invariant forall j :: 0 <= j < |header| && j != idx ==> header[j] == before[j]
      {
        var col := columns[c];
        if col.selector == hItem && col.alias != "" && rootSelector == "" {
          header := header[idx := col.alias];
        }
        c := c + 1;
      }
      idx := idx + 1;
    }
  }

  /** The counted loop that appends "1", "2", ..., "n". */
  method MakePositionalHeader(n: nat) returns (header: seq<string>)
    ensures header == PositionalHeader(n)
  {
    header := [];
    var i := 0;
    while i < n
      invariant 0 <= i <= n
      invariant header == PositionalHeader(i)
    {
      header := header + [DecimalString(i + 1)];
      i := i + 1;
    }
  }

  /** The zip loops: one map per row, filled cell by cell. */
  method ZipRows(header: seq<string>, records: seq<seq<string>>) returns (out: seq<map<string, string>>)
    ensures |out| == |records|
    ensures forall i :: 0 <= i < |records| ==> out[i] == Zip(header, records[i])
  {
    out := [];
    var k := 0;
    while k < |records|
      invariant 0 <= k <= |records|
      invariant |out| == k
      invariant forall i :: 0 <= i < k ==> out[i] == Zip(header, records[i])
    {
      var row := records[k];
      var item: map<string, string> := map[];
      var colId := 0;
      while colId < |header|
        invariant 0 <= colId <= |header|
        invariant item == ZipPrefix(header, row, colId)
      {
        if colId < |row| {
          item := item[header[colId] := row[colId]];
        }
        colId := colId + 1;
      }
      out := out + [item];
      k := k + 1;
    }
  }
}
