/** backend/src/utils.py: `validate_request_data` and `format_response`. The
    timestamp `get_timestamp()` reads from the clock is an input. */
module Utils {
  import opened Wrappers
  import opened Values
  import opened Text

  const MissingFieldsPrefix := "Missing required fields: "

  /** `[field for field in required_fields if field not in data]`. */
  function MissingFields(data: map<string, Value>, required: seq<string>): (missing: seq<string>)
    ensures forall f :: f in missing <==> f in required && f !in data
    ensures |missing| <= |required|
  {
    if |required| == 0 then []
    else (if required[0] in data then [] else [required[0]]) + MissingFields(data, required[1..])
  }

  /** The filter keeps the order of `required_fields`: filtering a concatenation
      concatenates the filtered parts. */
  lemma {:induction false} MissingFieldsAppend(data: map<string, Value>, a: seq<string>, b: seq<string>)
    ensures MissingFields(data, a + b) == MissingFields(data, a) + MissingFields(data, b)
  {
    if |a| > 0 {
      assert (a + b)[1..] == a[1..] + b;
      MissingFieldsAppend(data, a[1..], b);
    } else {
      assert a + b == b;
    }
  }

  /** `validate_request_data`: `(True, None)`, or `False` with the message
      naming the missing fields in order, separated by ", ". */
  function ValidateRequestData(data: map<string, Value>, required: seq<string>): (r: (bool, Option<string>))
    ensures r.0 <==> forall f :: f in required ==> f in data
    ensures r.0 ==> r.1 == None
    ensures !r.0 ==> r.1 == Some(MissingFieldsPrefix + Join(MissingFields(data, required), ", "))
  {
    var missing := MissingFields(data, required);
    if |missing| > 0 then
      assert missing[0] in required && missing[0] !in data;
      (false, Some(MissingFieldsPrefix + Join(missing, ", ")))
    else (true, None)
  }

  /** Every missing field's name appears in the error message. */
  lemma ValidationNamesMissing(data: map<string, Value>, required: seq<string>, field: string)
    requires field in required && field !in data
    ensures !ValidateRequestData(data, required).0
    ensures Contains(ValidateRequestData(data, required).1.value, field)
  {
    var missing := MissingFields(data, required);
    var k :| 0 <= k < |missing| && missing[k] == field;
    JoinContainsEach(missing, ", ", k);
    ContainsAfter(MissingFieldsPrefix, Join(missing, ", "), field);
  }

  /** `format_response(data, status, message)` with the timestamp given. */
  function FormatResponse(timestamp: string, data: Value, status: Value := Str("success"),
                          message: Value := Null): (r: map<string, Value>)
    ensures "status" in r && r["status"] == status
    ensures "timestamp" in r && r["timestamp"] == Str(timestamp)
    ensures "message" in r <==> Truthy(message)
    ensures "message" in r ==> r["message"] == message
    ensures "data" in r <==> data != Null
    ensures "data" in r ==> r["data"] == data
    ensures r.Keys <= {"status", "timestamp", "message", "data"}
  {
    var response := map["status" := status, "timestamp" := Str(timestamp)];
    var response := if Truthy(message) then response["message" := message] else response;
    if data != Null then response["data" := data] else response
  }
}
