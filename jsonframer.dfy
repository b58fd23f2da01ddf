/**
 * The root-selector stage of the JSON framer: before a document is turned into a
 * frame, a selector written in one of three dialects (a gjson path, a jq program or
 * a JSONata expression) reduces it, or, when no dialect is named, gjson is tried
 * first and JSONata second.
 *
 * The selector engines and Go's `encoding/json` are not modelled; they are passed in
 * as a `Libraries` value whose fields stand for the calls the code makes.
 */
module JsonFramer {
  import opened Wrappers

  /** A decoded JSON document, as `json.Unmarshal` into `any` produces it. */
  datatype Json =
    | JNull
    | JBool(b: bool)
    | JNumber(n: real)
    | JString(s: string)
    | JArray(items: seq<Json>)
    | JObject(members: map<string, Json>)

  /** One item pulled from a gojq result iterator. */
  datatype JqItem =
    | Val(v: Json)                 // an emitted value
    | Halt(value: Json)            // a *gojq.HaltError; gojq's nil, JSON null, is `JNull`
    | Fail(message: string)        // any other emitted error

  /** What `jsonata.Compile` hands back: an expression, a nil expression without error, or an error. */
  datatype JsonataCompiled = Compiled | CompiledNil | CompileFailed(message: string)

  /** The library calls the selector routines make. */
  datatype Libraries = Libraries(
    gjsonGet: (string, string) -> Option<string>,  // gjson.Get(json, path): None when !Exists(), else r.String()
    jqParses: string -> bool,                      // gojq.Parse returns no error
    jqRun: (string, Json) -> seq<JqItem>,          // everything query.Run(data) yields, in order
    unmarshal: string -> Option<Json>,             // json.Unmarshal into `any`; None on error
    marshal: Json -> Option<string>,               // json.Marshal; None on error
    jsonataCompile: string -> JsonataCompiled,     // jsonata.Compile
    jsonataEval: (string, Json) -> Option<Json>)   // expr.Eval(data); None on error

  /** The sentinel errors of the package, compared by kind. */
  datatype SelectorError =
    | ErrInvalidRootSelector
    | ErrInvalidJQSelector
    | ErrUnMarshalingJSON
    | ErrExecutingJQ
    | ErrMarshalingJSON
    | ErrInvalidJSONContent
    | ErrEvaluatingJSONata

  /** Go's `(string, error)` result: both halves may be set at once (see UsingGJSON). */
  datatype Selected = Selected(out: string, err: Option<SelectorError>)

  /** The framer types with a routine of their own; any other tag, "" included, means guess. */
  const FramerTypeGJSON := "gjson"
  const FramerTypeJsonata := "jsonata"
  const FramerTypeJQ := "jq"

  /** ApplyRootSelector: dispatch on the framer type. */
  function ApplyRootSelector(jsonString: string, rootSelector: string, framerType: string,
                             lib: Libraries): Selected
  {
    if rootSelector == "" then Selected(jsonString, None)
    else if framerType == FramerTypeGJSON then UsingGJSON(jsonString, rootSelector, lib)
    else if framerType == FramerTypeJsonata then UsingJSONata(jsonString, rootSelector, lib)
    else if framerType == FramerTypeJQ then UsingJQ(jsonString, rootSelector, lib)
    else UsingWithGuess(jsonString, rootSelector, lib)
  }

  /** ApplyRootSelectorUsingGJSON: a missing path gives back the input together with an error. */
  function UsingGJSON(jsonString: string, rootSelector: string, lib: Libraries): Selected {
    match lib.gjsonGet(jsonString, rootSelector)
    case Some(s) => Selected(s, None)
    case None => Selected(jsonString, Some(ErrInvalidRootSelector))
  }

  // ---------------------------------------------------------------------------------
  // jq

  /** Position of the first item that is not a value, or |items| when every item is one. */
  function FirstStop(items: seq<JqItem>): (k: nat)
    ensures k <= |items|
    ensures forall i :: 0 <= i < k ==> items[i].Val?
    ensures k < |items| ==> !items[k].Val?
  {
    if items == [] || !items[0].Val? then 0 else 1 + FirstStop(items[1..])
  }

  /** The emitted values of a run of value items. */
  function Values(items: seq<JqItem>): seq<Json>
    requires forall i :: 0 <= i < |items| ==> items[i].Val?
  {
    seq(|items|, i requires 0 <= i < |items| => items[i].v)
  }

  /**
   * The collection loop: the values up to the first non-value item, kept when that item
   * is a halt whose value is nil, i.e. JSON null (or there is none); `None` when the loop aborts.
   */
  function Collect(items: seq<JqItem>): Option<seq<Json>> {
    var k := FirstStop(items);
    if k == |items| || items[k] == Halt(JNull) then Some(Values(items[..k])) else None
  }

  /** The outputs as marshalled: one array output alone is unwrapped, anything else wrapped. */
  function Shape(out: seq<Json>): Json {
    if |out| == 1 && out[0].JArray? then out[0] else JArray(out)
  }

  /** ApplyRootSelectorUsingJQ, as a value; the method of the same name computes it with a loop. */
  function UsingJQ(jsonString: string, rootSelector: string, lib: Libraries): Selected {
    if !lib.jqParses(rootSelector) then Selected("", Some(ErrInvalidJQSelector))
    else match lib.unmarshal(jsonString)
      case None => Selected("", Some(ErrUnMarshalingJSON))
      case Some(data) =>
        match Collect(lib.jqRun(rootSelector, data))
        case None => Selected("", Some(ErrExecutingJQ))
        case Some(out) =>
          match lib.marshal(Shape(out))
          case None => Selected("", Some(ErrMarshalingJSON))
          case Some(s) => Selected(s, None)
  }

  /** The jq routine: parse, decode, drain the result iterator into `out`, shape and marshal. */
  method ApplyRootSelectorUsingJQ(jsonString: string, rootSelector: string, lib: Libraries)
    returns (r: Selected)
    ensures r == UsingJQ(jsonString, rootSelector, lib)
  {
    if !lib.jqParses(rootSelector) {
      return Selected("", Some(ErrInvalidJQSelector));
    }
    var data := lib.unmarshal(jsonString);
    if data.None? {
      return Selected("", Some(ErrUnMarshalingJSON));
    }
    var items := lib.jqRun(rootSelector, data.value);
    var out: seq<Json> := [];
    var i := 0;
    while i < |items|
      invariant 0 <= i <= |items|
      invariant forall j :: 0 <= j < i ==> items[j].Val?
      invariant out == Values(items[..i])
    {
      var item := items[i];
      if !item.Val? {
        if item.Halt? && item.value == JNull {
          break;
        }
        return Selected("", Some(ErrExecutingJQ));
      }
      out := out + [item.v];
      i := i + 1;
    }
    assert FirstStop(items) == i;
    if |out| == 1 && out[0].JArray? {
      var s := lib.marshal(out[0]);
      if s.None? {
        return Selected("", Some(ErrMarshalingJSON));
      }
      return Selected(s.value, None);
    }
    var s := lib.marshal(JArray(out));
    if s.None? {
      return Selected("", Some(ErrMarshalingJSON));
    }
    r := Selected(s.value, None);
  }

  /** Items that are all values. */
  function AsItems(vals: seq<Json>): seq<JqItem> {
    seq(|vals|, i requires 0 <= i < |vals| => Val(vals[i]))
  }

  /**
   * Every value emitted before the first non-value item is collected in emission order;
   * a halt with a nil (JSON null) value then ends collection normally, any other error aborts it,
   * whatever follows.
   */
  lemma {:induction false} CollectUpToStop(vals: seq<Json>, stop: JqItem, rest: seq<JqItem>)
    requires !stop.Val?
    ensures Collect(AsItems(vals) + [stop] + rest)
            == if stop == Halt(JNull) then Some(vals) else None
  {
    var items := AsItems(vals) + [stop] + rest;
    assert items[|vals|] == stop;
    assert FirstStop(items) == |vals|;
    assert items[..|vals|] == AsItems(vals);
    assert Values(AsItems(vals)) == vals;
  }

  /** An iterator that only emits values: all of them are collected, in order. */
  lemma CollectAllValues(vals: seq<Json>)
    ensures Collect(AsItems(vals)) == Some(vals)
  {
    var items := AsItems(vals);
    assert FirstStop(items) == |items|;
    assert items[..|items|] == items;
    assert Values(items) == vals;
  }

  /** Shaping unwraps exactly a lone array output and wraps everything else in one array. */
  lemma ShapeUnwrapsLoneArray(out: seq<Json>)
    ensures Shape(out).JArray?
    ensures |out| == 1 && out[0].JArray? ==> Shape(out) == out[0]
    ensures !(|out| == 1 && out[0].JArray?) ==> Shape(out).items == out
  {
  }

  /**
   * On a document that is not an array, `.` (one output: the document) and `[.]` (one
   * output: the document in a one-element array) select the same text.
   */
  lemma DotAndBracketDotAgree(jsonString: string, lib: Libraries, d: Json)
    requires lib.jqParses(".") && lib.jqParses("[.]")
    requires lib.unmarshal(jsonString) == Some(d) && !d.JArray?
    requires lib.jqRun(".", d) == [Val(d)]
    requires lib.jqRun("[.]", d) == [Val(JArray([d]))]
    ensures UsingJQ(jsonString, ".", lib) == UsingJQ(jsonString, "[.]", lib)
  {
    CollectAllValues([d]);
    assert AsItems([d]) == [Val(d)];
    CollectAllValues([JArray([d])]);
    assert AsItems([JArray([d])]) == [Val(JArray([d]))];
  }

  /** A parse failure is reported before the document is decoded, and both give an empty result. */
  lemma JqErrorOrder(jsonString: string, rootSelector: string, lib: Libraries)
    ensures !lib.jqParses(rootSelector) ==>
              UsingJQ(jsonString, rootSelector, lib) == Selected("", Some(ErrInvalidJQSelector))
    ensures lib.jqParses(rootSelector) && lib.unmarshal(jsonString).None? ==>
              UsingJQ(jsonString, rootSelector, lib) == Selected("", Some(ErrUnMarshalingJSON))
  {
  }

  // ---------------------------------------------------------------------------------
  // JSONata and guess

  /** ApplyRootSelectorUsingJSONata. */
  function UsingJSONata(jsonString: string, rootSelector: string, lib: Libraries): Selected {
    match lib.jsonataCompile(rootSelector)
    case CompileFailed(_) => Selected("", Some(ErrInvalidRootSelector))
    case CompiledNil => Selected("", Some(ErrInvalidRootSelector))
    case Compiled =>
      match lib.unmarshal(jsonString)
      case None => Selected("", Some(ErrInvalidJSONContent))
      case Some(data) =>
        match lib.jsonataEval(rootSelector, data)
        case None => Selected("", Some(ErrEvaluatingJSONata))
        case Some(res) =>
          match lib.marshal(res)
          case None => Selected("", Some(ErrInvalidJSONContent))
          case Some(s) => Selected(s, None)
  }

  /** ApplyRootSelectorUsingWithGuess, as written: a gjson lookup, then its own copy of the JSONata steps. */
  function UsingWithGuess(jsonString: string, rootSelector: string, lib: Libraries): Selected {
    match lib.gjsonGet(jsonString, rootSelector)
    case Some(s) => Selected(s, None)
    case None =>
      match lib.jsonataCompile(rootSelector)
      case CompileFailed(_) => Selected("", Some(ErrInvalidRootSelector))
      case CompiledNil => Selected("", Some(ErrInvalidRootSelector))
      case Compiled =>
        match lib.unmarshal(jsonString)
        case None => Selected("", Some(ErrInvalidJSONContent))
        case Some(data) =>
          match lib.jsonataEval(rootSelector, data)
          case None => Selected("", Some(ErrEvaluatingJSONata))
          case Some(res) =>
            match lib.marshal(res)
            case None => Selected("", Some(ErrInvalidJSONContent))
            case Some(s) => Selected(s, None)
  }

  /** Guessing is gjson when the path exists (JSONata never runs), and the JSONata routine otherwise. */
  lemma GuessIsGJSONThenJSONata(jsonString: string, rootSelector: string, lib: Libraries)
    ensures lib.gjsonGet(jsonString, rootSelector).Some? ==>
              UsingWithGuess(jsonString, rootSelector, lib) == UsingGJSON(jsonString, rootSelector, lib)
    ensures lib.gjsonGet(jsonString, rootSelector).None? ==>
              UsingWithGuess(jsonString, rootSelector, lib) == UsingJSONata(jsonString, rootSelector, lib)
  {
  }

  /** An empty selector hands the input back, whatever the framer type. */
  lemma EmptySelectorIsIdentity(jsonString: string, framerType: string, lib: Libraries)
    ensures ApplyRootSelector(jsonString, "", framerType, lib) == Selected(jsonString, None)
  {
  }

  /** Each named framer type reaches its own routine; every other tag reaches the guess routine. */
  lemma DispatchByFramerType(jsonString: string, rootSelector: string, framerType: string, lib: Libraries)
    requires rootSelector != ""
    ensures ApplyRootSelector(jsonString, rootSelector, framerType, lib)
            == if framerType == FramerTypeGJSON then UsingGJSON(jsonString, rootSelector, lib)
               else if framerType == FramerTypeJsonata then UsingJSONata(jsonString, rootSelector, lib)
               else if framerType == FramerTypeJQ then UsingJQ(jsonString, rootSelector, lib)
               else UsingWithGuess(jsonString, rootSelector, lib)
  {
  }

  /**
   * Error classification per stage: the gjson routine fails only on a missing path and then
   * returns its input; the jq and JSONata routines return "" with an error of their own stage.
   */
  lemma ErrorsByRoutine(jsonString: string, rootSelector: string, lib: Libraries)
    ensures var r := UsingGJSON(jsonString, rootSelector, lib);
            r.err.Some? <==> lib.gjsonGet(jsonString, rootSelector).None?
    ensures var r := UsingGJSON(jsonString, rootSelector, lib);
            r.err.Some? ==> r == Selected(jsonString, Some(ErrInvalidRootSelector))
    ensures var r := UsingJQ(jsonString, rootSelector, lib);
            r.err.Some? ==> (r.out == "" && r.err.value in
              {ErrInvalidJQSelector, ErrUnMarshalingJSON, ErrExecutingJQ, ErrMarshalingJSON})
    ensures var r := UsingJSONata(jsonString, rootSelector, lib);
            r.err.Some? ==> (r.out == "" && r.err.value in
              {ErrInvalidRootSelector, ErrInvalidJSONContent, ErrEvaluatingJSONata})
  {
  }

  /** The jq example of the documentation: `.[] | .name` over two objects gives both names. */
  lemma JqNamesExample(jsonString: string, lib: Libraries)
    requires var foo := JObject(map["name" := JString("foo")]);
             var bar := JObject(map["name" := JString("bar")]);
             && lib.jqParses(".[] | .name")
             && lib.unmarshal(jsonString) == Some(JArray([foo, bar]))
             && lib.jqRun(".[] | .name", JArray([foo, bar])) == [Val(JString("foo")), Val(JString("bar"))]
             && lib.marshal(JArray([JString("foo"), JString("bar")])) == Some("[\"foo\",\"bar\"]")
    ensures UsingJQ(jsonString, ".[] | .name", lib) == Selected("[\"foo\",\"bar\"]", None)
  {
    CollectAllValues([JString("foo"), JString("bar")]);
    assert AsItems([JString("foo"), JString("bar")]) == [Val(JString("foo")), Val(JString("bar"))];
  }
}
