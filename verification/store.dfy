/** The two tables the handlers share, and the two handlers that write to
    them: RegisterUser (lambda/register_user/handler.py) and AddExpense
    (lambda/add_expense/handler.py). */
module Store {
  import opened Wrappers
  import opened Records
  import opened Splits
  import opened ExpenseChecks
  import Decimals

  /** The expense invariant: the participants' splits add up to the amount. */
  predicate Balanced(e: Expense)
  {
    SplitTotal(e.participants, e.splits) == e.amount
  }

  const REGISTER_MISSING := "name and email are required"
  const INVALID_PAYER := "Invalid payer_id. User does not exist."
  const SPLIT_MISMATCH := "Split amounts do not add up to total"

  class Tables {
    /** The `users` table, keyed by user_id. */
    var users: map<string, User>
    /** The `expenses` table, keyed by expense_id. */
    var expenses: map<string, Expense>

    /** Every row sits under its own id, every expense's payer is a user, and
        every expense is balanced. */
    ghost predicate Valid()
      reads this
    {
      && (forall id | id in users :: users[id].userId == id)
      && (forall id | id in expenses ::
            && expenses[id].expenseId == id
            && expenses[id].payerId in users
            && Balanced(expenses[id]))
    }

    constructor ()
      ensures Valid()
      ensures users == map[] && expenses == map[]
    {
      users := map[];
      expenses := map[];
    }

    /** lambda/register_user/handler.py: `freshId` stands for `uuid.uuid4()`,
        `now` for `datetime.utcnow().isoformat()`, `putFault` for an exception
        raised by `table.put_item`. */
    method RegisterUser(req: UserRequest, freshId: string, now: string, putFault: Option<string>)
      returns (resp: Response)
      requires Valid()
      requires freshId !in users
      modifies this
      ensures Valid()
      ensures expenses == old(expenses)
      ensures req.name.None? || req.email.None? ==>
        resp == Response(BAD_REQUEST, ErrorBody(REGISTER_MISSING)) && users == old(users)
      ensures req.name.Some? && req.email.Some? && putFault.Some? ==>
        resp == Response(INTERNAL_ERROR, ErrorBody(putFault.value)) && users == old(users)
      ensures req.name.Some? && req.email.Some? && putFault.None? ==>
        && resp == Response(CREATED, CreatedBody("User registered", "user_id", freshId))
        && users == old(users)[freshId := User(freshId, req.name.value, req.email.value, now)]
      ensures resp.statusCode == CREATED <==> users != old(users)
      ensures resp.statusCode == CREATED ==> |users| == |old(users)| + 1
    {
      if req.name.None? || req.email.None? {
        return Response(BAD_REQUEST, ErrorBody(REGISTER_MISSING));
      }
      var item := User(freshId, req.name.value, req.email.value, now);
      if putFault.Some? {
        return Response(INTERNAL_ERROR, ErrorBody(putFault.value));
      }
      users := users[freshId := item];
      assert freshId in users && freshId !in old(users);
      resp := Response(CREATED, CreatedBody("User registered", "user_id", freshId));
    }

    /** lambda/add_expense/handler.py: the ordered validation pipeline, then a
        single insert. `lookupFault` and `putFault` stand for exceptions raised
        by `users_table.get_item` and `expenses_table.put_item`. */
    method AddExpense(req: ExpenseRequest, freshId: string, now: string,
                      lookupFault: Option<string>, putFault: Option<string>)
      returns (resp: Response)
      requires Valid()
      requires freshId !in expenses
      modifies this
      ensures Valid()
      ensures users == old(users)
      // 1. presence, in the order of RequiredFields
      ensures FirstAbsent(req, RequiredFields).Some? ==>
        resp == Response(BAD_REQUEST, ErrorBody(FirstAbsent(req, RequiredFields).value + " is required"))
      // 2. the payer lookup
      ensures AllPresent(req) && lookupFault.Some? ==>
        resp == Response(INTERNAL_ERROR, ErrorBody(lookupFault.value))
      ensures AllPresent(req) && lookupFault.None? && req.payerId.value !in users ==>
        resp == Response(NOT_FOUND, ErrorBody(INVALID_PAYER))
      // 3. exact-decimal parse of the amount and of every split value
      ensures (&& AllPresent(req) && lookupFault.None? && req.payerId.value in users
               && (Decimals.Parse(req.amount.value).None? || ParseSplits(req.splits.value).None?)) ==>
        resp == Response(INTERNAL_ERROR, ErrorBody(CONVERSION_SYNTAX))
      // 4. the split sum, then the write
      ensures (&& AllPresent(req) && lookupFault.None? && req.payerId.value in users
               && Decimals.Parse(req.amount.value).Some? && ParseSplits(req.splits.value).Some?) ==>
        var amount := Decimals.Parse(req.amount.value).value;
        var splits := ParseSplits(req.splits.value).value;
        if SplitTotal(req.participants.value, splits) != amount then
          resp == Response(BAD_REQUEST, ErrorBody(SPLIT_MISMATCH))
        else if putFault.Some? then
          resp == Response(INTERNAL_ERROR, ErrorBody(putFault.value))
        else
          && resp == Response(CREATED, CreatedBody("Expense added", "expense_id", freshId))
          && expenses == old(expenses)[freshId := Expense(freshId, req.payerId.value, amount,
               req.participants.value, splits, req.description.value, now)]
      // only a 201 writes, and then exactly one balanced record under the returned id
      ensures resp.statusCode != CREATED ==> expenses == old(expenses)
      ensures resp.statusCode == CREATED ==>
        && resp.body == CreatedBody("Expense added", "expense_id", freshId)
        && freshId in expenses
        && expenses == old(expenses)[freshId := expenses[freshId]]
        && |expenses| == |old(expenses)| + 1
        && Balanced(expenses[freshId])
    {
      var missing := FindMissingField(req);
      if missing.Some? {
        return Response(BAD_REQUEST, ErrorBody(missing.value + " is required"));
      }
      if lookupFault.Some? {
        return Response(INTERNAL_ERROR, ErrorBody(lookupFault.value));
      }
      var payer := req.payerId.value;
      if payer !in users {
        return Response(NOT_FOUND, ErrorBody(INVALID_PAYER));
      }
      var amount := Decimals.Parse(req.amount.value);
      var splits := ParseSplits(req.splits.value);
      if amount.None? || splits.None? {
        return Response(INTERNAL_ERROR, ErrorBody(CONVERSION_SYNTAX));
      }
      var total := SplitTotal(req.participants.value, splits.value);
      if total != amount.value {
        return Response(BAD_REQUEST, ErrorBody(SPLIT_MISMATCH));
      }
      var item := Expense(freshId, payer, amount.value, req.participants.value, splits.value,
                          req.description.value, now);
      if putFault.Some? {
        return Response(INTERNAL_ERROR, ErrorBody(putFault.value));
      }
      expenses := expenses[freshId := item];
      assert freshId in expenses && freshId !in old(expenses);
      resp := Response(CREATED, CreatedBody("Expense added", "expense_id", freshId));
    }
  }
}
