/**
 * The JSON precheck run on response bodies: a blank body and a body the JSON
 * validity test rejects are refused with messages of their own. The validity test
 * (gjson.Valid) is not modelled; it is a parameter.
 */
module Utils {
  import opened Wrappers
  import opened Text

  const EmptyJsonReceived := "empty json received"
  const InvalidJsonReceived := "invalid json response received"

  /** ValidateJson: `None` is the nil error. */
  function ValidateJson(jsonString: string, valid: string -> bool): Option<string> {
    if TrimSpace(jsonString) == "" then Some(EmptyJsonReceived)
    else if !valid(jsonString) then Some(InvalidJsonReceived)
    else None
  }

  /**
   * The three outcomes: "empty" exactly for all-white-space input (checked first, so such
   * input never reads as invalid), "invalid" exactly for other input the validity test
   * rejects, and no error exactly for other input it accepts.
   */
  lemma ValidateJsonOutcomes(jsonString: string, valid: string -> bool)
    ensures ValidateJson(jsonString, valid) == Some(EmptyJsonReceived)
            <==> forall i :: 0 <= i < |jsonString| ==> IsSpace(jsonString[i])
    ensures ValidateJson(jsonString, valid) == Some(InvalidJsonReceived)
            <==> (exists i :: 0 <= i < |jsonString| && !IsSpace(jsonString[i])) && !valid(jsonString)
    ensures ValidateJson(jsonString, valid) == None
            <==> (exists i :: 0 <= i < |jsonString| && !IsSpace(jsonString[i])) && valid(jsonString)
  {
    TrimsToEmptyIffBlank(jsonString);
  }
}
