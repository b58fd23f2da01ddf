/**
 * Row filtering of frames. A frame is a set of named, typed fields of equal length;
 * filtering evaluates a boolean expression once per row, with the row's cells bound
 * by field name, and keeps the rows for which it is true. The filter is all or
 * nothing: any error returns the original frame untouched.
 *
 * The expression engine (govaluate), the field-name slugifier and the value
 * conversion of `framesql` are not modelled; they are passed in as an `Evaluator`.
 * The frame's own operations (Rows, RowLen, EmptyCopy, RowCopy, AppendRow) are
 * modelled as plain sequence operations.
 */
module Transformations {
  import opened Wrappers
  import opened Text

  /** A non-null cell value. */
  datatype Value = VString(s: string) | VNumber(n: real) | VBool(b: bool) | VTime(millis: int)

  /** A field: name, type name, labels, and one cell per row (`None` is a null cell). */
  datatype Field = Field(name: string, typ: string, labels: map<string, string>, values: seq<Option<Value>>)

  /** The frame metadata, copied along unchanged. */
  datatype FrameMeta = NoMeta | FrameMeta(preferredVisualisation: string)

  /** The contents of a frame at one moment. */
  datatype FrameData = FrameData(name: string, fields: seq<Field>, meta: FrameMeta)

  /** A frame: a heap object whose fields AppendRow extends in place. */
  class Frame {
    var name: string
    var fields: seq<Field>
    var meta: FrameMeta

    function Data(): FrameData
      reads this
    {
      FrameData(name, fields, meta)
    }

    constructor (d: FrameData)
      ensures Data() == d
    {
      name, fields, meta := d.name, d.fields, d.meta;
    }

    /** EmptyCopy: a new frame with the same name, meta and field headings, and no rows. */
    method EmptyCopy() returns (c: Frame)
      ensures fresh(c) && c.Data() == EmptyCopyOf(Data())
    {
      c := new Frame(EmptyCopyOf(Data()));
    }

    /** AppendRow: one more cell at the end of every field. */
    method AppendRow(row: seq<Option<Value>>)
      requires |row| == |fields|
      modifies this
      ensures name == old(name) && meta == old(meta)
      ensures fields == AppendedRow(old(fields), row)
    {
      fields := AppendedRow(fields, row);
    }
  }

  function EmptyCopyOf(d: FrameData): FrameData {
    FrameData(d.name,
              seq(|d.fields|, j requires 0 <= j < |d.fields| => d.fields[j].(values := [])),
              d.meta)
  }

  function AppendedRow(fields: seq<Field>, row: seq<Option<Value>>): seq<Field>
    requires |row| == |fields|
  {
    seq(|fields|, j requires 0 <= j < |fields| => fields[j].(values := fields[j].values + [row[j]]))
  }

  /** Frame.Rows: the length of the first field, 0 without fields. */
  function Rows(d: FrameData): nat {
    if |d.fields| > 0 then |d.fields[0].values| else 0
  }

  /** Frame.RowLen: the common length of the fields; an error when there are none or they differ. */
  function RowLen(d: FrameData): Option<nat> {
    if |d.fields| == 0 then None
    else if forall j :: 0 <= j < |d.fields| ==> |d.fields[j].values| == |d.fields[0].values|
    then Some(|d.fields[0].values|)
    else None
  }

  /** Every field has at least `n` cells. */
  predicate HasRows(d: FrameData, n: nat) {
    forall j :: 0 <= j < |d.fields| ==> n <= |d.fields[j].values|
  }

  /** Frame.RowCopy: the cells of row `i`, one per field. */
  function RowCopy(d: FrameData, i: nat): (row: seq<Option<Value>>)
    requires HasRows(d, i + 1)
    ensures |row| == |d.fields|
  {
    seq(|d.fields|, j requires 0 <= j < |d.fields| => d.fields[j].values[i])
  }

  /** The frame restricted to the rows listed in `kept`, in that order; headings and meta unchanged. */
  function SelectRows(d: FrameData, kept: seq<nat>): FrameData
    requires forall t :: 0 <= t < |kept| ==> HasRows(d, kept[t] + 1)
  {
    FrameData(d.name,
              seq(|d.fields|, j requires 0 <= j < |d.fields| =>
                d.fields[j].(values := seq(|kept|, t requires 0 <= t < |kept| =>
                  assert HasRows(d, kept[t] + 1); d.fields[j].values[kept[t]]))),
              d.meta)
  }

  /** Keeping no rows is the empty copy. */
  lemma SelectNoRows(d: FrameData)
    ensures SelectRows(d, []) == EmptyCopyOf(d)
  {
    forall j | 0 <= j < |d.fields| ensures SelectRows(d, []).fields[j] == EmptyCopyOf(d).fields[j] {
      assert SelectRows(d, []).fields[j].values == [];
    }
  }

  /** Keeping one more row appends that row's copy. */
  lemma SelectOneMoreRow(d: FrameData, kept: seq<nat>, i: nat)
    requires forall t :: 0 <= t < |kept| ==> HasRows(d, kept[t] + 1)
    requires HasRows(d, i + 1)
    ensures SelectRows(d, kept + [i]) == FrameData(d.name, AppendedRow(SelectRows(d, kept).fields, RowCopy(d, i)), d.meta)
  {
    var a := SelectRows(d, kept + [i]).fields;
    var b := AppendedRow(SelectRows(d, kept).fields, RowCopy(d, i));
    assert |a| == |b|;
    forall j | 0 <= j < |a| ensures a[j] == b[j] {
      assert a[j].values == b[j].values;
    }
  }

  // ---------------------------------------------------------------------------------
  // The expression engine

  /** A value bound in the expression's parameter map. */
  datatype Param = FrameParam(frame: FrameData) | NilParam | RowIndexParam(index: int) | CellParam(v: Value)

  datatype CompileResult = Compiled | CompileErr(message: string)

  /** What Evaluate returns: a bool, a *bool (possibly nil), any other value, or an error. */
  datatype EvalResult = Bool(b: bool) | BoolPtr(p: Option<bool>) | Other | EvalErr(message: string)

  datatype Evaluator = Evaluator(
    compile: string -> CompileResult,                        // govaluate.NewEvaluableExpressionWithFunctions
    evaluate: (string, map<string, Param>) -> EvalResult,    // parsedExpression.Evaluate(parameters)
    slugify: string -> string,                               // framesql.SlugifyFieldName
    getValue: Value -> Value)                                // framesql.GetValue

  datatype FilterError =
    | ErrFieldLengths                                        // RowLen failed
    | ErrInvalidFilterExpression(message: string)
    | ErrCompilingExpression(message: string)                // any other compile failure, as it came
    | ErrNotUniqueFieldNames
    | ErrEvaluatingFilterExpression(row: nat, message: string)
    | ErrNonBinaryResult(row: nat)                           // "filter expression for row N didn't produce binary result"

  /** checkIfInvalidFilterExpression: the compile error names an invalid token. */
  function CheckIfInvalidFilterExpression(message: string): (b: bool)
    ensures b <==> exists i :: OccursAt(message, "Invalid token:", i)
  {
    Contains(message, "Invalid token:")
  }

  /** The parameter bound to a cell: nil for a null cell, the converted value otherwise. */
  function CellParamOf(f: Field, i: nat, ev: Evaluator): Param
    requires i < |f.values|
  {
    match f.values[i]
    case None => NilParam
    case Some(v) => CellParam(ev.getValue(v))
  }

  /** The reserved names, bound before any field. */
  function Reserved(d: FrameData, i: nat): map<string, Param> {
    map["frame" := FrameParam(d), "null" := NilParam, "nil" := NilParam, "rowIndex" := RowIndexParam(i)]
  }

  /** The parameters after the first `n` fields have bound their slug and then their raw name. */
  function BindingsPrefix(d: FrameData, i: nat, ev: Evaluator, n: nat): map<string, Param>
    requires n <= |d.fields| && HasRows(d, i + 1)
  {
    if n == 0 then Reserved(d, i)
    else
      var f := d.fields[n - 1];
      var v := CellParamOf(f, i, ev);
      BindingsPrefix(d, i, ev, n - 1)[ev.slugify(f.name) := v][f.name := v]
  }

  /** The parameter map for row `i`. */
  function Bindings(d: FrameData, i: nat, ev: Evaluator): map<string, Param>
    requires HasRows(d, i + 1)
  {
    BindingsPrefix(d, i, ev, |d.fields|)
  }

  /** Field `f` writes name `k`, by its slug or by its raw name. */
  predicate Binds(f: Field, k: string, ev: Evaluator) {
    ev.slugify(f.name) == k || f.name == k
  }

  /** A name is bound to the cell of the last field that writes it, whatever wrote it before. */
  lemma {:induction false} BindingLastWriter(d: FrameData, i: nat, ev: Evaluator, n: nat, k: string, j: nat)
    requires n <= |d.fields| && HasRows(d, i + 1)
    requires j < n && Binds(d.fields[j], k, ev)
    requires forall j' :: j < j' < n ==> !Binds(d.fields[j'], k, ev)
    ensures k in BindingsPrefix(d, i, ev, n)
    ensures BindingsPrefix(d, i, ev, n)[k] == CellParamOf(d.fields[j], i, ev)
  {
    if j < n - 1 {
      BindingLastWriter(d, i, ev, n - 1, k, j);
    }
  }

  /** A name no field writes keeps its reserved binding, or stays unbound. */
  lemma {:induction false} BindingUnwritten(d: FrameData, i: nat, ev: Evaluator, n: nat, k: string)
    requires n <= |d.fields| && HasRows(d, i + 1)
    requires forall j :: 0 <= j < n ==> !Binds(d.fields[j], k, ev)
    ensures k in BindingsPrefix(d, i, ev, n) <==> k in Reserved(d, i)
    ensures k in Reserved(d, i) ==> BindingsPrefix(d, i, ev, n)[k] == Reserved(d, i)[k]
  {
    if n > 0 {
      BindingUnwritten(d, i, ev, n - 1, k);
    }
  }

  /** BuildParameters: the parameter map of one row, written field by field. */
  method BuildParameters(d: FrameData, i: nat, ev: Evaluator) returns (parameters: map<string, Param>)
    requires HasRows(d, i + 1)
    ensures parameters == Bindings(d, i, ev)
  {
    parameters := map["frame" := FrameParam(d), "null" := NilParam, "nil" := NilParam, "rowIndex" := RowIndexParam(i)];
    var j := 0;
    while j < |d.fields|
      invariant 0 <= j <= |d.fields|
      invariant parameters == BindingsPrefix(d, i, ev, j)
    {
      var field := d.fields[j];
      var v := NilParam;
      if field.values[i].Some? {
        v := CellParam(ev.getValue(field.values[i].value));
      }
      parameters := parameters[ev.slugify(field.name) := v];
      parameters := parameters[field.name := v];
      j := j + 1;
    }
  }

  // ---------------------------------------------------------------------------------
  // Names

  predicate UniqueNames(fields: seq<Field>) {
    forall a, b :: 0 <= a < b < |fields| ==> fields[a].name != fields[b].name
  }

  /** The duplicate-name loop: a map of names seen so far, and a failure at the first repeat. */
  method CheckUniqueNames(fields: seq<Field>) returns (unique: bool)
    ensures unique <==> UniqueNames(fields)
  {
    var fieldKeys: map<string, bool> := map[];
    var j := 0;
    while j < |fields|
      invariant 0 <= j <= |fields|
      invariant UniqueNames(fields[..j])
      invariant forall k :: k in fieldKeys ==> fieldKeys[k]
      invariant forall k :: k in fieldKeys <==> exists a :: 0 <= a < j && fields[a].name == k
    {
      if fields[j].name in fieldKeys && fieldKeys[fields[j].name] {
        var a :| 0 <= a < j && fields[a].name == fields[j].name;
        assert !UniqueNames(fields) by {
          assert fields[a].name == fields[j].name;
        }
        return false;
      }
      fieldKeys := fieldKeys[fields[j].name := true];
      j := j + 1;
    }
    assert fields[..j] == fields;
    unique := true;
  }

  // ---------------------------------------------------------------------------------
  // The filter as a value

  /** The row's result as a match: a bool or a non-nil *bool; anything else is no answer. */
  function AsMatch(r: EvalResult): Option<bool> {
    match r
    case Bool(b) => Some(b)
    case BoolPtr(p) => p
    case _ => None
  }

  /** The expression's result on row `i`. */
  function Verdict(d: FrameData, expression: string, ev: Evaluator, i: nat): EvalResult
    requires HasRows(d, i + 1)
  {
    ev.evaluate(expression, Bindings(d, i, ev))
  }

  /** The row loop over rows 0 .. n-1: the rows kept so far, or the first row's error. */
  function ScanRows(d: FrameData, expression: string, ev: Evaluator, n: nat): Result<seq<nat>, FilterError>
    requires HasRows(d, n)
  {
    if n == 0 then Ok([])
    else match ScanRows(d, expression, ev, n - 1)
      case Err(e) => Err(e)
      case Ok(kept) =>
        var r := Verdict(d, expression, ev, n - 1);
        if r.EvalErr? then Err(ErrEvaluatingFilterExpression(n - 1, r.message))
        else match AsMatch(r)
          case None => Err(ErrNonBinaryResult(n - 1))
          case Some(b) => Ok(if b then kept + [n - 1] else kept)
  }

  /** What ApplyFilter does to a non-nil frame. */
  datatype FilterOutcome = Unchanged | Failed(error: FilterError) | Filtered(result: FrameData)

  function FilterSpec(d: FrameData, expression: string, ev: Evaluator): FilterOutcome {
    if Rows(d) == 0 then Unchanged
    else if IsBlank(expression) then Unchanged
    else match RowLen(d)
      case None => Failed(ErrFieldLengths)
      case Some(n) =>
        match ev.compile(expression)
        case CompileErr(message) =>
          Failed(if CheckIfInvalidFilterExpression(message) then ErrInvalidFilterExpression(message)
                 else ErrCompilingExpression(message))
        case Compiled =>
          if !UniqueNames(d.fields) then Failed(ErrNotUniqueFieldNames)
          else match ScanRows(d, expression, ev, n)
            case Err(e) => Failed(e)
            case Ok(kept) =>
              ScanKeptInRange(d, expression, ev, n);
              Filtered(SelectRows(d, kept))
  }

  /** The kept rows are strictly increasing row numbers below n. */
  predicate IncreasingBelow(kept: seq<nat>, n: nat) {
    (forall t :: 0 <= t < |kept| ==> kept[t] < n)
    && (forall s, t :: 0 <= s < t < |kept| ==> kept[s] < kept[t])
  }

  /** The row answered true: a bool true or a non-nil *bool pointing at true. */
  predicate IsTrue(d: FrameData, expression: string, ev: Evaluator, i: nat)
    requires HasRows(d, i + 1)
  {
    AsMatch(Verdict(d, expression, ev, i)) == Some(true)
  }

  /** The row has no usable answer: an evaluation error or a result that is not a boolean. */
  predicate IsBad(d: FrameData, expression: string, ev: Evaluator, i: nat)
    requires HasRows(d, i + 1)
  {
    Verdict(d, expression, ev, i).EvalErr? || AsMatch(Verdict(d, expression, ev, i)).None?
  }

  /** The rows a completed row loop kept are strictly increasing row numbers below n, each readable. */
  lemma ScanKeptInRange(d: FrameData, expression: string, ev: Evaluator, n: nat)
    requires HasRows(d, n)
    ensures ScanRows(d, expression, ev, n).Ok? ==>
              && IncreasingBelow(ScanRows(d, expression, ev, n).value, n)
              && forall t :: 0 <= t < |ScanRows(d, expression, ev, n).value| ==>
                   HasRows(d, ScanRows(d, expression, ev, n).value[t] + 1)
  {
    if ScanRows(d, expression, ev, n).Ok? {
      ScanKeepsTrueRows(d, expression, ev, n);
    }
  }

  /**
   * When the row loop completes, it has kept exactly the rows whose result is true,
   * in their original order; no row had an unusable result.
   */
  lemma {:induction false} ScanKeepsTrueRows(d: FrameData, expression: string, ev: Evaluator, n: nat)
    requires HasRows(d, n)
    requires ScanRows(d, expression, ev, n).Ok?
    ensures var kept := ScanRows(d, expression, ev, n).value;
            && IncreasingBelow(kept, n)
            && (forall i :: 0 <= i < n ==> (i in kept <==> IsTrue(d, expression, ev, i)))
            && (forall i :: 0 <= i < n ==> !IsBad(d, expression, ev, i))
  {
    if n > 0 {
      ScanKeepsTrueRows(d, expression, ev, n - 1);
    }
  }

  /** The row loop fails exactly when some row has an unusable result, and reports the first one. */
  lemma {:induction false} ScanFailsAtFirstBadRow(d: FrameData, expression: string, ev: Evaluator, n: nat)
    requires HasRows(d, n)
    ensures ScanRows(d, expression, ev, n).Err? <==> exists i :: 0 <= i < n && IsBad(d, expression, ev, i)
    ensures ScanRows(d, expression, ev, n).Err? ==>
              exists i :: 0 <= i < n && IsBad(d, expression, ev, i)
                          && (forall i' :: 0 <= i' < i ==> !IsBad(d, expression, ev, i'))
                          && ScanRows(d, expression, ev, n).error
                             == (if Verdict(d, expression, ev, i).EvalErr?
                                 then ErrEvaluatingFilterExpression(i, Verdict(d, expression, ev, i).message)
                                 else ErrNonBinaryResult(i))
  {
    if n > 0 {
      ScanFailsAtFirstBadRow(d, expression, ev, n - 1);
      if ScanRows(d, expression, ev, n - 1).Ok? {
        ScanKeepsTrueRows(d, expression, ev, n - 1);
        assert ScanRows(d, expression, ev, n).Err? <==> IsBad(d, expression, ev, n - 1);
      }
    }
  }

  // ---------------------------------------------------------------------------------
  // Properties of the filter

  /** A nil-free frame with no rows, or a blank expression, leaves the frame as it is. */
  lemma EarlyExits(d: FrameData, expression: string, ev: Evaluator)
    ensures Rows(d) == 0 ==> FilterSpec(d, expression, ev) == Unchanged
    ensures IsBlank(expression) ==> FilterSpec(d, expression, ev) == Unchanged
  {
  }

  /**
   * Compile failures are classified by their message and come before the name check; duplicate
   * names are reported, whatever the expression, once the expression compiles.
   */
  lemma CompileThenNames(d: FrameData, expression: string, ev: Evaluator)
    requires Rows(d) > 0 && !IsBlank(expression) && RowLen(d).Some?
    ensures ev.compile(expression).CompileErr? ==>
              FilterSpec(d, expression, ev)
              == Failed(if Contains(ev.compile(expression).message, "Invalid token:")
                        then ErrInvalidFilterExpression(ev.compile(expression).message)
                        else ErrCompilingExpression(ev.compile(expression).message))
    ensures ev.compile(expression).Compiled? && !UniqueNames(d.fields) ==>
              FilterSpec(d, expression, ev) == Failed(ErrNotUniqueFieldNames)
  {
  }

  /**
   * A successful filter is the selection of exactly the rows whose result is true, in their
   * original order; so it never adds rows. See SelectRowsShape for what a selection holds.
   */
  lemma {:induction false} FilteredShape(d: FrameData, expression: string, ev: Evaluator)
    requires FilterSpec(d, expression, ev).Filtered?
    ensures RowLen(d).Some? && UniqueNames(d.fields)
    ensures exists kept: seq<nat> ::
              && IncreasingBelow(kept, Rows(d))
              && (forall i :: 0 <= i < Rows(d) ==> (i in kept <==> IsTrue(d, expression, ev, i)))
              && |kept| <= Rows(d)
              && FilterSpec(d, expression, ev).result == SelectRows(d, kept)
  {
    FilteredIsSelection(d, expression, ev);
    var kept := ScanRows(d, expression, ev, Rows(d)).value;
    ScanKeepsTrueRows(d, expression, ev, Rows(d));
    IncreasingIsShort(kept, Rows(d));
  }

  /** A successful filter selects the rows the row loop kept. */
  lemma FilteredIsSelection(d: FrameData, expression: string, ev: Evaluator)
    requires FilterSpec(d, expression, ev).Filtered?
    ensures RowLen(d) == Some(Rows(d)) && UniqueNames(d.fields)
    ensures ScanRows(d, expression, ev, Rows(d)).Ok?
    ensures (ScanKeptInRange(d, expression, ev, Rows(d));
             FilterSpec(d, expression, ev).result == SelectRows(d, ScanRows(d, expression, ev, Rows(d)).value))
  {
    ScanKeptInRange(d, expression, ev, Rows(d));
  }

  /** The selection keeps the headings and holds, per field, the listed rows' cells in order. */
  lemma SelectRowsShape(d: FrameData, kept: seq<nat>)
    requires forall t :: 0 <= t < |kept| ==> HasRows(d, kept[t] + 1)
    ensures var r := SelectRows(d, kept);
            && r.name == d.name && r.meta == d.meta && |r.fields| == |d.fields|
            && (forall j :: 0 <= j < |d.fields| ==>
                  r.fields[j].name == d.fields[j].name && r.fields[j].typ == d.fields[j].typ
                  && r.fields[j].labels == d.fields[j].labels && |r.fields[j].values| == |kept|)
            && (forall j, t :: 0 <= j < |d.fields| && 0 <= t < |kept| ==>
                  r.fields[j].values[t] == d.fields[j].values[kept[t]])
  {
  }

  /** A strictly increasing sequence of numbers below n has at most n elements. */
  lemma {:induction false} IncreasingIsShort(kept: seq<nat>, n: nat)
    requires IncreasingBelow(kept, n)
    ensures |kept| <= n
  {
    if kept != [] {
      var last := kept[|kept| - 1];
      assert IncreasingBelow(kept[..|kept| - 1], last);
      IncreasingIsShort(kept[..|kept| - 1], last);
    }
  }

  /**
   * Filtering by an expression and by its negation splits the rows: where the two results
   * are booleans and opposite on every row, no row is kept by both and the kept counts add
   * up to the row count.
   */
  lemma {:induction false} NegationPartitions(d: FrameData, e1: string, e2: string, ev: Evaluator, n: nat)
    requires HasRows(d, n)
    requires forall i :: 0 <= i < n ==> Verdict(d, e1, ev, i).Bool? && Verdict(d, e2, ev, i).Bool?
                                        && Verdict(d, e2, ev, i).b == !Verdict(d, e1, ev, i).b
    ensures ScanRows(d, e1, ev, n).Ok? && ScanRows(d, e2, ev, n).Ok?
    ensures |ScanRows(d, e1, ev, n).value| + |ScanRows(d, e2, ev, n).value| == n
    ensures forall i :: i in ScanRows(d, e1, ev, n).value ==> i !in ScanRows(d, e2, ev, n).value
  {
    if n > 0 {
      NegationPartitions(d, e1, e2, ev, n - 1);
      ScanKeepsTrueRows(d, e1, ev, n - 1);
      ScanKeepsTrueRows(d, e2, ev, n - 1);
    }
  }

  // ---------------------------------------------------------------------------------
  // The filter

  /**
   * ApplyFilter. A nil frame comes back nil without error; otherwise the outcome is that of
   * FilterSpec: the same frame (with or without an error), or a new frame holding the
   * kept rows. The input frame is never written.
   */
  method ApplyFilter(frame: Frame?, filterExpression: string, ev: Evaluator) returns (out: Frame?, err: Option<FilterError>)
    ensures frame == null ==> out == null && err == None
    ensures frame != null ==> unchanged(frame)
    ensures frame != null ==>
              match FilterSpec(frame.Data(), filterExpression, ev)
              case Unchanged => out == frame && err == None
              case Failed(e) => out == frame && err == Some(e)
              case Filtered(r) => out != null && fresh(out) && out.Data() == r && err == None
  {
    out := null;
    if frame == null {
      return frame, None;
    }
    ghost var d := frame.Data();
    if Rows(frame.Data()) == 0 {
      return frame, None;
    }
    if IsBlank(filterExpression) {
      return frame, None;
    }
    var filteredFrame := frame.EmptyCopy();
    filteredFrame.meta := frame.meta;
    var rowLen := RowLen(frame.Data());
    if rowLen.None? {
      return frame, Some(ErrFieldLengths);
    }
    var parsedExpression := ev.compile(filterExpression);
    if parsedExpression.CompileErr? {
      if CheckIfInvalidFilterExpression(parsedExpression.message) {
        return frame, Some(ErrInvalidFilterExpression(parsedExpression.message));
      }
      return frame, Some(ErrCompilingExpression(parsedExpression.message));
    }
    var unique := CheckUniqueNames(frame.fields);
    if !unique {
      return frame, Some(ErrNotUniqueFieldNames);
    }
    var n := rowLen.value;
    assert HasRows(d, n);
    err := FilterRows(frame, filteredFrame, filterExpression, ev, n);
    if err.Some? {
      return frame, err;
    }
    out := filteredFrame;
  }

  /** The row loop of ApplyFilter: evaluate every row, append the matching ones to `filteredFrame`. */
  method FilterRows(frame: Frame, filteredFrame: Frame, filterExpression: string, ev: Evaluator, n: nat)
    returns (err: Option<FilterError>)
    requires filteredFrame != frame && HasRows(frame.Data(), n)
    requires filteredFrame.Data() == EmptyCopyOf(frame.Data())
    modifies filteredFrame
    ensures ScanRows(frame.Data(), filterExpression, ev, n).Err? ==>
              err == Some(ScanRows(frame.Data(), filterExpression, ev, n).error)
    ensures ScanRows(frame.Data(), filterExpression, ev, n).Ok? ==>
              err == None
              && (ScanKeptInRange(frame.Data(), filterExpression, ev, n);
                  filteredFrame.Data() == SelectRows(frame.Data(), ScanRows(frame.Data(), filterExpression, ev, n).value))
  {
    ghost var d := frame.Data();
    SelectNoRows(d);
    ghost var kept: seq<nat> := [];
    var inRowIdx := 0;
    while inRowIdx < n
      invariant 0 <= inRowIdx <= n
      invariant ScanRows(d, filterExpression, ev, inRowIdx) == Ok(kept)
      invariant forall t :: 0 <= t < |kept| ==> kept[t] < inRowIdx
      invariant filteredFrame.Data() == SelectRows(d, kept)
    {
      var step := EvaluateRow(frame, filterExpression, ev, inRowIdx);
      if step.Err? {
        ScanStopsAtError(d, filterExpression, ev, inRowIdx + 1, n);
        return Some(step.error);
      }
      if step.value {
        KeepRow(frame, filteredFrame, kept, inRowIdx);
        kept := kept + [inRowIdx];
      }
      inRowIdx := inRowIdx + 1;
    }
    err := None;
  }

  /**
   * One pass of the row loop: bind the row's parameters, evaluate, and read the result as a
   * match; an evaluation error or a result that is not a boolean is that row's error.
   */
  method EvaluateRow(frame: Frame, filterExpression: string, ev: Evaluator, inRowIdx: nat)
    returns (step: Result<bool, FilterError>)
    requires HasRows(frame.Data(), inRowIdx + 1)
    ensures step.Err? <==> IsBad(frame.Data(), filterExpression, ev, inRowIdx)
    ensures step.Err? ==>
              step.error == if Verdict(frame.Data(), filterExpression, ev, inRowIdx).EvalErr?
                            then ErrEvaluatingFilterExpression(inRowIdx, Verdict(frame.Data(), filterExpression, ev, inRowIdx).message)
                            else ErrNonBinaryResult(inRowIdx)
    ensures step.Ok? ==> (step.value <==> IsTrue(frame.Data(), filterExpression, ev, inRowIdx))
  {
    var parameters := BuildParameters(frame.Data(), inRowIdx, ev);
    var result := ev.evaluate(filterExpression, parameters);
    if result.EvalErr? {
      return Err(ErrEvaluatingFilterExpression(inRowIdx, result.message));
    }
    var matched: Option<bool> := None;
    if result.Bool? {
      matched := Some(result.b);
    }
    if result.BoolPtr? {
      matched := result.p;
    }
    if matched.None? {
      return Err(ErrNonBinaryResult(inRowIdx));
    }
    step := Ok(matched.value);
  }

  /** Append row `i` of `frame` to the selection of the rows in `kept`. */
  method KeepRow(frame: Frame, filteredFrame: Frame, ghost kept: seq<nat>, i: nat)
    requires filteredFrame != frame && HasRows(frame.Data(), i + 1)
    requires forall t :: 0 <= t < |kept| ==> HasRows(frame.Data(), kept[t] + 1)
    requires filteredFrame.Data() == SelectRows(frame.Data(), kept)
    modifies filteredFrame
    ensures filteredFrame.Data() == SelectRows(frame.Data(), kept + [i])
  {
    SelectOneMoreRow(frame.Data(), kept, i);
    filteredFrame.AppendRow(RowCopy(frame.Data(), i));
  }

  /** Once the row loop has failed, it stays failed with the same error. */
  lemma {:induction false} ScanStopsAtError(d: FrameData, expression: string, ev: Evaluator, m: nat, n: nat)
    requires m <= n && HasRows(d, n)
    requires ScanRows(d, expression, ev, m).Err?
    ensures ScanRows(d, expression, ev, n) == ScanRows(d, expression, ev, m)
    decreases n - m
  {
    if m < n {
      ScanStopsAtError(d, expression, ev, m + 1, n);
    }
  }

  /** What ApplyFilter does to a frame, nil or not. */
  function OutcomeOf(frame: Frame?, expression: string, ev: Evaluator): FilterOutcome
    reads frame
  {
    if frame == null then Unchanged else FilterSpec(frame.Data(), expression, ev)
  }

  /** What FilterExpression puts in a frame's place under a non-failing outcome: the frame itself or its filtered copy. */
  predicate Replaces(frame: Frame?, result: Frame?, outcome: FilterOutcome)
    reads result
  {
    match outcome
    case Unchanged => result == frame
    case Failed(_) => false
    case Filtered(r) => result != null && result.Data() == r
  }

  /** One step of FilterExpression: ApplyFilter on one frame, with its outcome named. */
  method ApplyOne(frame: Frame?, expression: string, ev: Evaluator)
    returns (result: Frame?, failed: bool, ghost outcome: FilterOutcome)
    ensures outcome == OutcomeOf(frame, expression, ev)
    ensures failed <==> outcome.Failed?
    ensures !failed ==> Replaces(frame, result, outcome)
    ensures result != frame ==> fresh(result)
  {
    var e;
    result, e := ApplyFilter(frame, expression, ev);
    failed := e.Some?;
    outcome := OutcomeOf(frame, expression, ev);
  }

  /** The one error FilterExpression reports, whatever the frame's own error was. */
  const UnableToApplyFilter := "unable to apply filter"

  /**
   * FilterExpression: every frame filtered in order; at the first failure the frames done so
   * far come back with a generic error.
   */
  method FilterExpression(input: seq<Frame?>, expression: string, ev: Evaluator)
    returns (output: seq<Frame?>, err: Option<string>)
    ensures |output| <= |input|
    ensures forall i :: 0 <= i < |output| ==> Replaces(input[i], output[i], OutcomeOf(input[i], expression, ev))
    ensures forall i :: 0 <= i < |output| && output[i] != input[i] ==> fresh(output[i])
    ensures err.None? ==> |output| == |input|
    ensures err.Some? ==> err == Some(UnableToApplyFilter) && |output| < |input|
                          && OutcomeOf(input[|output|], expression, ev).Failed?
  {
    output := [];
    var k := 0;
    while k < |input|
      invariant 0 <= k <= |input| && |output| == k
      invariant forall i :: 0 <= i < k ==> Replaces(input[i], output[i], OutcomeOf(input[i], expression, ev))
      invariant forall i :: 0 <= i < k && output[i] != input[i] ==> fresh(output[i])
    {
      var filteredFrame, failed, outcome := ApplyOne(input[k], expression, ev);
      if failed {
        return output, Some(UnableToApplyFilter);
      }
      output := output + [filteredFrame];
      k := k + 1;
    }
    err := None;
  }
}
