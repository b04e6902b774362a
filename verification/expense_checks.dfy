/** The validation steps of AddExpense that do not touch the tables: the
    required-field scan and the parse of the split values. */
module ExpenseChecks {
  import opened Wrappers
  import opened Records
  import Decimals

  /** The keys AddExpense requires, in the order it checks them. */
  const RequiredFields: seq<string> := ["payer_id", "amount", "participants", "splits", "description"]

  /** `field in body`, for the keys the request record carries. */
  predicate Present(req: ExpenseRequest, field: string)
  {
    if field == "payer_id" then req.payerId.Some?
    else if field == "amount" then req.amount.Some?
    else if field == "participants" then req.participants.Some?
    else if field == "splits" then req.splits.Some?
    else if field == "description" then req.description.Some?
    else false
  }

  predicate AllPresent(req: ExpenseRequest)
  {
    && req.payerId.Some?
    && req.amount.Some?
    && req.participants.Some?
    && req.splits.Some?
    && req.description.Some?
  }

  /** The first of `fields` that the request lacks, if any. */
  function FirstAbsent(req: ExpenseRequest, fields: seq<string>): (r: Option<string>)
    ensures r.None? <==> forall i | 0 <= i < |fields| :: Present(req, fields[i])
    ensures r.Some? ==> exists i | 0 <= i < |fields| ::
      && fields[i] == r.value
      && !Present(req, fields[i])
      && forall j | 0 <= j < i :: Present(req, fields[j])
  {
    if fields == [] then None
    else if !Present(req, fields[0]) then Some(fields[0])
    else
      var r := FirstAbsent(req, fields[1..]);
      if r.Some? then
        var i :| 0 <= i < |fields[1..]| && fields[1..][i] == r.value && !Present(req, fields[1..][i])
          && forall j | 0 <= j < i :: Present(req, fields[1..][j]);
        assert fields[i + 1] == r.value && !Present(req, fields[i + 1]);
        assert forall j | 0 <= j < i + 1 :: Present(req, fields[j]) by {
          forall j | 0 <= j < i + 1 ensures Present(req, fields[j]) {
            if j > 0 { assert fields[j] == fields[1..][j - 1]; }
          }
        }
        r
      else
        assert forall i | 0 <= i < |fields| :: Present(req, fields[i]) by {
          forall i | 0 <= i < |fields| ensures Present(req, fields[i]) {
            if i > 0 { assert fields[i] == fields[1..][i - 1]; }
          }
        }
        r
  }

  /** With the required fields, "nothing is absent" is "every field is given". */
  lemma NoneAbsentIffAllPresent(req: ExpenseRequest)
    ensures FirstAbsent(req, RequiredFields).None? <==> AllPresent(req)
  {
    if FirstAbsent(req, RequiredFields).None? {
      assert Present(req, RequiredFields[0]) && Present(req, RequiredFields[1]) && Present(req, RequiredFields[2])
        && Present(req, RequiredFields[3]) && Present(req, RequiredFields[4]);
    }
  }

  /** The loop over `required_fields`: returns the first missing one. */
  method FindMissingField(req: ExpenseRequest) returns (missing: Option<string>)
    ensures missing == FirstAbsent(req, RequiredFields)
    ensures missing.None? <==> AllPresent(req)
  {
    NoneAbsentIffAllPresent(req);
    var i := 0;
    while i < |RequiredFields|
      invariant 0 <= i <= |RequiredFields|
      invariant forall j | 0 <= j < i :: Present(req, RequiredFields[j])
    {
      var field := RequiredFields[i];
      if !Present(req, field) {
        return Some(field);
      }
      i := i + 1;
    }
    return None;
  }

  /** `{uid: Decimal(str(val)) for uid, val in splits.items()}`: every value
      is parsed, whoever it belongs to; one malformed value fails the whole map. */
  function ParseSplits(raw: map<string, string>): (r: Option<map<string, real>>)
    ensures r.Some? <==> forall k | k in raw :: Decimals.Parse(raw[k]).Some?
    ensures r.Some? ==> r.value.Keys == raw.Keys
    ensures r.Some? ==> forall k | k in raw :: Decimals.Parse(raw[k]) == Some(r.value[k])
  {
    if forall k | k in raw :: Decimals.Parse(raw[k]).Some? then
      Some(map k | k in raw :: Decimals.Parse(raw[k]).value)
    else
      None
  }
}
