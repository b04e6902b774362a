/** Clients of the handlers: what a caller can conclude from their contracts
    alone when the handlers are used one after another. */
module Scenarios {
  import opened Wrappers
  import opened Records
  import opened Splits
  import opened ExpenseChecks
  import opened Store
  import opened Queries
  import Decimals

  /** A registered user can be read back with the name and email given. */
  method RegisterThenGet(t: Tables, name: string, email: string, freshId: string, now: string)
    returns (r: Invocation)
    requires t.Valid() && freshId !in t.users
    modifies t
    ensures t.Valid()
    ensures r == Returned(Response(OK, UserBody(User(freshId, name, email, now))))
  {
    var resp := t.RegisterUser(UserRequest(Some(name), Some(email)), freshId, now, None);
    r := GetUser(t.users, Some(resp.body.id), None);
  }

  /** Registering the same name and email twice creates two users. */
  method RegisterTwice(t: Tables, name: string, email: string, id1: string, id2: string, now: string)
    returns (r1: Response, r2: Response)
    requires t.Valid() && id1 !in t.users && id2 !in t.users && id1 != id2
    modifies t
    ensures t.Valid()
    ensures r1 == Response(CREATED, CreatedBody("User registered", "user_id", id1))
    ensures r2 == Response(CREATED, CreatedBody("User registered", "user_id", id2))
    ensures id1 in t.users && id2 in t.users
    ensures t.users[id1] == User(id1, name, email, now) && t.users[id2] == User(id2, name, email, now)
    ensures |t.users| == |old(t.users)| + 2
  {
    r1 := t.RegisterUser(UserRequest(Some(name), Some(email)), id1, now, None);
    r2 := t.RegisterUser(UserRequest(Some(name), Some(email)), id2, now, None);
  }

  /** Only key presence is checked: empty strings are a valid name and email. */
  method EmptyNameAccepted(t: Tables, freshId: string, now: string) returns (r: Response)
    requires t.Valid() && freshId !in t.users
    modifies t
    ensures r == Response(CREATED, CreatedBody("User registered", "user_id", freshId))
    ensures freshId in t.users && t.users[freshId].name == "" && t.users[freshId].email == ""
  {
    r := t.RegisterUser(UserRequest(Some(""), Some("")), freshId, now, None);
  }

  lemma HundredthsValue(n: nat)
    ensures Decimals.Value(n, -2) == n as real / 100.0
  {
    assert Decimals.Pow10(2) == 100;
  }

  lemma CentsDigitsValue(whole: string, cents: string)
    requires |cents| == 2 && Decimals.AllDigits(whole) && Decimals.AllDigits(cents)
    ensures Decimals.AllDigits(whole + cents)
    ensures Decimals.DigitsValue(whole + cents) == 100 * Decimals.DigitsValue(whole) + Decimals.DigitsValue(cents)
  {
    assert Decimals.Pow10(|cents|) == 100;
    Decimals.DigitsAppend(whole, cents);
  }

  lemma ParseHundredths(whole: string, cents: string)
    requires whole != [] && |cents| == 2
    requires Decimals.AllDigits(whole) && Decimals.AllDigits(cents)
    ensures Decimals.AllDigits(whole + cents)
    ensures Decimals.Parse(whole + "." + cents) == Some(Decimals.DigitsValue(whole + cents) as real / 100.0)
  {
    Decimals.ParsePlain(whole, cents);
    HundredthsValue(Decimals.DigitsValue(whole + cents));
  }

  /** `whole.cc` parses to the exact amount it spells. */
  lemma ParseCents(whole: string, cents: string)
    requires whole != [] && |cents| == 2
    requires Decimals.AllDigits(whole) && Decimals.AllDigits(cents)
    ensures Decimals.Parse(whole + "." + cents)
            == Some((100 * Decimals.DigitsValue(whole) + Decimals.DigitsValue(cents)) as real / 100.0)
  {
    ParseHundredths(whole, cents);
    CentsDigitsValue(whole, cents);
    var v := Decimals.DigitsValue(whole + cents);
    assert v == 100 * Decimals.DigitsValue(whole) + Decimals.DigitsValue(cents);
    assert Decimals.Parse(whole + "." + cents) == Some(v as real / 100.0);
  }

  lemma OneDigit(c: char)
    requires Decimals.IsDigit(c)
    ensures Decimals.AllDigits([c]) && Decimals.DigitsValue([c]) == Decimals.DigitValue(c)
  {
    assert [c][..0] == [];
  }

  lemma TwoDigits(c: char, d: char)
    requires Decimals.IsDigit(c) && Decimals.IsDigit(d)
    ensures Decimals.AllDigits([c, d])
    ensures Decimals.DigitsValue([c, d]) == 10 * Decimals.DigitValue(c) + Decimals.DigitValue(d)
  {
    OneDigit(c);
    assert [c, d][..1] == [c];
  }

  /** A whole amount written with `.00` parses to that whole amount. */
  lemma WholeCents(ds: string, n: nat)
    requires ds != [] && Decimals.AllDigits(ds) && Decimals.DigitsValue(ds) == n
    ensures Decimals.Parse(ds + ".00") == Some(n as real)
  {
    TwoDigits('0', '0');
    ParseCents(ds, "00");
    assert ds + "." + "00" == ds + ".00";
  }

  lemma Parse40()
    ensures Decimals.Parse("40.00") == Some(40.0)
  {
    TwoDigits('4', '0');
    WholeCents("40", 40);
    assert "40" + ".00" == "40.00";
  }

  lemma Parse60()
    ensures Decimals.Parse("60.00") == Some(60.0)
  {
    TwoDigits('6', '0');
    WholeCents("60", 60);
    assert "60" + ".00" == "60.00";
  }

  lemma Digits100()
    ensures Decimals.AllDigits("100") && Decimals.DigitsValue("100") == 100
  {
    TwoDigits('1', '0');
    assert "100"[..2] == "10";
  }

  lemma Parse100()
    ensures Decimals.Parse("100.00") == Some(100.0)
  {
    Digits100();
    WholeCents("100", 100);
    assert "100" + ".00" == "100.00";
  }

  lemma ParseInt100()
    ensures Decimals.Parse("100") == Some(100.0)
  {
    Digits100();
    Decimals.ParseInteger("100");
  }

  lemma ParseInt60()
    ensures Decimals.Parse("60") == Some(60.0)
  {
    TwoDigits('6', '0');
    Decimals.ParseInteger("60");
  }

  lemma ParseInt30()
    ensures Decimals.Parse("30") == Some(30.0)
  {
    TwoDigits('3', '0');
    Decimals.ParseInteger("30");
  }

  lemma ParseInt5()
    ensures Decimals.Parse("5") == Some(5.0)
  {
    OneDigit('5');
    Decimals.ParseInteger("5");
  }

  /** Parsing a one-entry splits map parses its entry. */
  lemma ParseOneSplit(a: string, ta: string, va: real)
    requires Decimals.Parse(ta) == Some(va)
    ensures ParseSplits(map[a := ta]) == Some(map[a := va])
  {
    var raw := map[a := ta];
    assert forall k | k in raw :: Decimals.Parse(raw[k]).Some?;
    var parsed := ParseSplits(raw).value;
    assert parsed.Keys == {a};
    assert parsed == map[a := va];
  }

  lemma OneParticipantTotal(a: string, va: real)
    ensures SplitTotal([a], map[a := va]) == va
  {
    assert [a][1..] == [];
  }

  /** Parsing a two-entry splits map parses both entries. */
  lemma ParseTwoSplits(a: string, b: string, ta: string, tb: string, va: real, vb: real)
    requires a != b
    requires Decimals.Parse(ta) == Some(va) && Decimals.Parse(tb) == Some(vb)
    ensures ParseSplits(map[a := ta, b := tb]) == Some(map[a := va, b := vb])
  {
    var raw := map[a := ta, b := tb];
    assert forall k | k in raw :: Decimals.Parse(raw[k]).Some?;
    var parsed := ParseSplits(raw).value;
    assert parsed.Keys == {a, b};
    assert parsed == map[a := va, b := vb];
  }

  lemma TwoParticipantTotal(a: string, b: string, va: real, vb: real)
    requires a != b
    ensures SplitTotal([a, b], map[a := va, b := vb]) == va + vb
  {
    var splits := map[a := va, b := vb];
    assert [a, b][1..] == [b] && [b][1..] == [];
    assert SplitTotal([b], splits) == vb;
  }

  /** Two users register; the first pays 100.00 split 40.00 / 60.00 between
      them and gets 201 with an expense id; a query by the second user, on a
      scan that sees the whole table, returns exactly that expense under the
      returned id. */
  method EndToEnd(u1: string, u2: string, eid: string, now: string) returns (added: Response, r: Invocation)
    requires u1 != u2
    ensures added.statusCode == CREATED && added.body.CreatedBody?
    ensures r.Returned? && r.response.statusCode == OK && r.response.body.ExpensesBody?
    ensures |r.response.body.items| == 1
    ensures r.response.body.items[0].expenseId == added.body.id && r.response.body.items[0].amount == 100.0
  {
    var t := new Tables();
    var _ := t.RegisterUser(UserRequest(Some("U1"), Some("u1@example.com")), u1, now, None);
    var _ := t.RegisterUser(UserRequest(Some("U2"), Some("u2@example.com")), u2, now, None);
    added := AddDinner(t, u1, u2, eid, now);
    assert t.expenses.Keys == {eid};
    r := GetExpensesByUser(t.expenses, Some(u2), [eid], None);
    assert t.expenses[eid] in r.response.body.items;
  }

  /** The payer `u1` records a 100.00 dinner split 40.00 / 60.00 with `u2`. */
  method AddDinner(t: Tables, u1: string, u2: string, eid: string, now: string) returns (resp: Response)
    requires t.Valid() && u1 != u2 && u1 in t.users && eid !in t.expenses
    modifies t
    ensures t.Valid()
    ensures resp == Response(CREATED, CreatedBody("Expense added", "expense_id", eid))
    ensures t.expenses == old(t.expenses)[eid := Expense(eid, u1, 100.0, [u1, u2],
                                                          map[u1 := 40.0, u2 := 60.0], "dinner", now)]
  {
    var req := ExpenseRequest(Some(u1), Some("100.00"), Some([u1, u2]),
                              Some(map[u1 := "40.00", u2 := "60.00"]), Some("dinner"));
    NoneAbsentIffAllPresent(req);
    Parse40();
    Parse60();
    Parse100();
    ParseTwoSplits(u1, u2, "40.00", "60.00", 40.0, 60.0);
    TwoParticipantTotal(u1, u2, 40.0, 60.0);
    resp := t.AddExpense(req, eid, now, None, None);
  }

  /** amount=100 with splits 60 + 30 is refused with 400 however valid the
      rest of the request is. */
  method MismatchRejected(t: Tables, payer: string, eid: string, now: string) returns (resp: Response)
    requires t.Valid() && payer in t.users && eid !in t.expenses
    modifies t
    ensures resp == Response(BAD_REQUEST, ErrorBody(SPLIT_MISMATCH))
    ensures t.expenses == old(t.expenses)
  {
    var req := ExpenseRequest(Some(payer), Some("100"), Some(["A", "B"]),
                              Some(map["A" := "60", "B" := "30"]), Some("taxi"));
    NoneAbsentIffAllPresent(req);
    ParseInt100();
    ParseInt60();
    ParseInt30();
    ParseTwoSplits("A", "B", "60", "30", 60.0, 30.0);
    TwoParticipantTotal("A", "B", 60.0, 30.0);
    resp := t.AddExpense(req, eid, now, None, None);
  }

  /** An unknown payer is reported before the split sum is looked at. */
  method UnknownPayerBeforeSum(t: Tables, payer: string, eid: string, now: string) returns (resp: Response)
    requires t.Valid() && payer !in t.users && eid !in t.expenses
    modifies t
    ensures resp == Response(NOT_FOUND, ErrorBody(INVALID_PAYER))
    ensures t.expenses == old(t.expenses)
  {
    var req := ExpenseRequest(Some(payer), Some("100"), Some(["A", "B"]),
                              Some(map["A" := "60", "B" := "30"]), Some("taxi"));
    NoneAbsentIffAllPresent(req);
    resp := t.AddExpense(req, eid, now, None, None);
  }

  /** Participants need not be users, and the payer need not participate. */
  method UnregisteredParticipant(t: Tables, payer: string, eid: string, now: string) returns (resp: Response)
    requires t.Valid() && payer in t.users && "guest" !in t.users && payer != "guest" && eid !in t.expenses
    modifies t
    ensures resp == Response(CREATED, CreatedBody("Expense added", "expense_id", eid))
    ensures eid in t.expenses && t.expenses[eid].participants == ["guest"]
  {
    var req := ExpenseRequest(Some(payer), Some("5"), Some(["guest"]),
                              Some(map["guest" := "5"]), Some("coffee"));
    NoneAbsentIffAllPresent(req);
    ParseInt5();
    ParseOneSplit("guest", "5", 5.0);
    OneParticipantTotal("guest", 5.0);
    resp := t.AddExpense(req, eid, now, None, None);
  }

  /** The first missing field is named, in the fixed order: with both the
      amount and the description absent, the amount is reported. */
  method FirstMissingNamed(t: Tables, payer: string, participants: seq<string>,
                           splits: map<string, string>, eid: string, now: string)
    returns (resp: Response)
    requires t.Valid() && eid !in t.expenses
    modifies t
    ensures resp == Response(BAD_REQUEST, ErrorBody("amount is required"))
    ensures t.expenses == old(t.expenses) && t.users == old(t.users)
  {
    var req := ExpenseRequest(Some(payer), None, Some(participants), Some(splits), None);
    AmountCheckedBeforeDescription(req);
    assert "amount" + " is required" == "amount is required";
    resp := t.AddExpense(req, eid, now, None, None);
  }

  lemma AmountCheckedBeforeDescription(req: ExpenseRequest)
    requires req.payerId.Some? && req.amount.None?
    ensures FirstAbsent(req, RequiredFields) == Some("amount")
  {
    assert RequiredFields[1..] == ["amount", "participants", "splits", "description"];
  }
}
