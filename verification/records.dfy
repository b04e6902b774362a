/** The records the two tables hold, the typed request bodies the handlers
    read, and the responses they return. */
module Records {
  import opened Wrappers

  /** A row of the `users` table. */
  datatype User = User(userId: string, name: string, email: string, createdAt: string)

  /** A row of the `expenses` table. `amount` and the values of `splits` are
      the exact decimals parsed from the request; `participants` and
      `description` are stored as the request gave them. */
  datatype Expense = Expense(
    expenseId: string,
    payerId: string,
    amount: real,
    participants: seq<string>,
    splits: map<string, real>,
    description: string,
    createdAt: string)

  /** The body of a RegisterUser request: each key may be absent. */
  datatype UserRequest = UserRequest(name: Option<string>, email: Option<string>)

  /** The body of an AddExpense request: each key may be absent. `amount` and
      the values of `splits` are the text `str(v)` yields for the JSON values. */
  datatype ExpenseRequest = ExpenseRequest(
    payerId: Option<string>,
    amount: Option<string>,
    participants: Option<seq<string>>,
    splits: Option<map<string, string>>,
    description: Option<string>)

  /** The JSON body of a response. */
  datatype Body =
    | ErrorBody(error: string)
    | CreatedBody(message: string, idKey: string, id: string)
    | UserBody(user: User)
    | ExpensesBody(items: seq<Expense>)

  datatype Response = Response(statusCode: int, body: Body)

  /** What a handler invocation ends with: a response, or an exception that
      escapes the handler because it was raised outside its `try` block. */
  datatype Invocation = Returned(response: Response) | Raised(exception: string)

  const OK := 200
  const CREATED := 201
  const BAD_REQUEST := 400
  const NOT_FOUND := 404
  const INTERNAL_ERROR := 500

  /** `str(e)` of the `decimal.InvalidOperation` that `Decimal()` raises on a
      malformed numeric string. */
  const CONVERSION_SYNTAX := "[<class 'decimal.ConversionSyntax'>]"
}
