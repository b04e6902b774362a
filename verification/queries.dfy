/** The two read-only handlers, as functions of the table they read:
    GetUser (lambda/get_user/handler.py) and GetExpensesByUser
    (lambda/get_expenses_by_user/handler.py). Being functions, they change
    no table and give the same result whenever they are given the same table. */
module Queries {
  import opened Wrappers
  import opened Records

  const USER_NOT_FOUND := "User not found"
  /** `str(e)` of the `KeyError` raised when the event has no path id. */
  const MISSING_PATH_ID := "'id'"

  /** `pathId` is `event["pathParameters"]["id"]`, read before the `try`
      block; `fault` stands for an exception raised by `table.get_item`. */
  function GetUser(users: map<string, User>, pathId: Option<string>, fault: Option<string>): (r: Invocation)
    ensures r.Raised? <==> pathId.None?
    ensures pathId.Some? && fault.Some? ==> r == Returned(Response(INTERNAL_ERROR, ErrorBody(fault.value)))
    ensures pathId.Some? && fault.None? ==>
      && r.Returned?
      && (r.response.statusCode == OK <==> pathId.value in users)
      && (pathId.value !in users ==> r.response == Response(NOT_FOUND, ErrorBody(USER_NOT_FOUND)))
      && (pathId.value in users ==> r.response.body == UserBody(users[pathId.value]))
  {
    if pathId.None? then Raised(MISSING_PATH_ID)
    else if fault.Some? then Returned(Response(INTERNAL_ERROR, ErrorBody(fault.value)))
    else if pathId.value !in users then Returned(Response(NOT_FOUND, ErrorBody(USER_NOT_FOUND)))
    else Returned(Response(OK, UserBody(users[pathId.value])))
  }

  /** The scan filter `contains(participants, :uid)` over the keys `page`
      that the first page of the scan visits, in scan order. */
  function Matching(expenses: map<string, Expense>, page: seq<string>, id: string): (r: seq<Expense>)
    requires forall k | k in page :: k in expenses
    ensures |r| <= |page|
    ensures forall e | e in r :: id in e.participants && exists k | k in page :: expenses[k] == e
    ensures forall k | k in page && id in expenses[k].participants :: expenses[k] in r
  {
    if page == [] then []
    else
      var rest := Matching(expenses, page[1..], id);
      if id in expenses[page[0]].participants then [expenses[page[0]]] + rest else rest
  }

  /** `r` lists the expenses at positions `idx` of `page`: each position
      once, in increasing order, and exactly the positions whose expense
      has `id` among its participants. */
  predicate InScanOrder(expenses: map<string, Expense>, page: seq<string>, id: string,
                        idx: seq<nat>, r: seq<Expense>)
    requires forall k | k in page :: k in expenses
  {
    && |idx| == |r|
    && (forall j | 0 <= j < |idx| :: idx[j] < |page| && r[j] == expenses[page[idx[j]]])
    && (forall j, j' | 0 <= j < j' < |idx| :: idx[j] < idx[j'])
    && (forall i | 0 <= i < |page| :: id in expenses[page[i]].participants <==> i in idx)
  }

  /** The filter keeps scan order and multiplicity: the result is the
      subsequence of the visited expenses that list `id`, one entry per
      visited key. */
  lemma {:induction false} MatchingPositions(expenses: map<string, Expense>, page: seq<string>, id: string)
    returns (idx: seq<nat>)
    requires forall k | k in page :: k in expenses
    ensures InScanOrder(expenses, page, id, idx, Matching(expenses, page, id))
  {
    if page == [] {
      idx := [];
    } else {
      var tail := MatchingPositions(expenses, page[1..], id);
      idx := ConsPositions(expenses, page, id, tail);
    }
  }

  /** The inductive step: the positions in the rest of the page, shifted by
      one, with position 0 in front when the first expense matches. */
  lemma ConsPositions(expenses: map<string, Expense>, page: seq<string>, id: string, tail: seq<nat>)
    returns (idx: seq<nat>)
    requires page != [] && forall k | k in page :: k in expenses
    requires InScanOrder(expenses, page[1..], id, tail, Matching(expenses, page[1..], id))
    ensures InScanOrder(expenses, page, id, idx, Matching(expenses, page, id))
  {
    var later := Matching(expenses, page[1..], id);
    var shifted := ShiftPositions(expenses, page, id, tail, later);
    if id in expenses[page[0]].participants {
      idx := [0] + shifted;
      PrependPosition(expenses, page, id, shifted, later);
      assert Matching(expenses, page, id) == [expenses[page[0]]] + later;
    } else {
      idx := shifted;
      assert 0 !in shifted;
      assert Matching(expenses, page, id) == later;
    }
  }

  /** Positions in the rest of the page, as positions in the whole page. */
  lemma ShiftPositions(expenses: map<string, Expense>, page: seq<string>, id: string,
                       tail: seq<nat>, later: seq<Expense>)
    returns (shifted: seq<nat>)
    requires page != [] && forall k | k in page :: k in expenses
    requires InScanOrder(expenses, page[1..], id, tail, later)
    ensures |shifted| == |later|
    ensures forall j | 0 <= j < |shifted| :: 1 <= shifted[j] < |page| && later[j] == expenses[page[shifted[j]]]
    ensures forall j, j' | 0 <= j < j' < |shifted| :: shifted[j] < shifted[j']
    ensures forall i | 1 <= i < |page| :: id in expenses[page[i]].participants <==> i in shifted
  {
    var rest := page[1..];
    shifted := seq(|tail|, j requires 0 <= j < |tail| => tail[j] + 1);
    forall j | 0 <= j < |shifted|
      ensures 1 <= shifted[j] < |page| && later[j] == expenses[page[shifted[j]]]
    {
      assert page[shifted[j]] == rest[tail[j]];
    }
    forall j, j' | 0 <= j < j' < |shifted|
      ensures shifted[j] < shifted[j']
    {
      assert tail[j] < tail[j'];
    }
    forall i | 1 <= i < |page|
      ensures id in expenses[page[i]].participants <==> i in shifted
    {
      assert page[i] == rest[i - 1];
      if i - 1 in tail {
        var j :| 0 <= j < |tail| && tail[j] == i - 1;
        assert shifted[j] == i;
      }
    }
  }

  /** A matching first expense puts position 0 in front of the shifted positions. */
  lemma PrependPosition(expenses: map<string, Expense>, page: seq<string>, id: string,
                        shifted: seq<nat>, later: seq<Expense>)
    requires page != [] && forall k | k in page :: k in expenses
    requires id in expenses[page[0]].participants
    requires |shifted| == |later|
    requires forall j | 0 <= j < |shifted| :: 1 <= shifted[j] < |page| && later[j] == expenses[page[shifted[j]]]
    requires forall j, j' | 0 <= j < j' < |shifted| :: shifted[j] < shifted[j']
    requires forall i | 1 <= i < |page| :: id in expenses[page[i]].participants <==> i in shifted
    ensures InScanOrder(expenses, page, id, [0] + shifted, [expenses[page[0]]] + later)
  {
    PrependValues(expenses, page, shifted, later);
    PrependOrder(shifted);
    PrependMembers(expenses, page, id, shifted);
  }

  lemma PrependValues(expenses: map<string, Expense>, page: seq<string>, shifted: seq<nat>, later: seq<Expense>)
    requires page != [] && forall k | k in page :: k in expenses
    requires |shifted| == |later|
    requires forall j | 0 <= j < |shifted| :: shifted[j] < |page| && later[j] == expenses[page[shifted[j]]]
    ensures var idx, r := [0] + shifted, [expenses[page[0]]] + later;
            forall j | 0 <= j < |idx| :: idx[j] < |page| && r[j] == expenses[page[idx[j]]]
  {
    var idx, r := [0] + shifted, [expenses[page[0]]] + later;
    forall j | 0 <= j < |idx|
      ensures idx[j] < |page| && r[j] == expenses[page[idx[j]]]
    {
      if j > 0 {
        assert idx[j] == shifted[j - 1] && r[j] == later[j - 1];
      }
    }
  }

  lemma PrependOrder(shifted: seq<nat>)
    requires forall j | 0 <= j < |shifted| :: 1 <= shifted[j]
    requires forall j, j' | 0 <= j < j' < |shifted| :: shifted[j] < shifted[j']
    ensures var idx := [0] + shifted;
            forall j, j' | 0 <= j < j' < |idx| :: idx[j] < idx[j']
  {
    var idx := [0] + shifted;
    forall j, j' | 0 <= j < j' < |idx|
      ensures idx[j] < idx[j']
    {
      assert idx[j'] == shifted[j' - 1];
      if j > 0 {
        assert idx[j] == shifted[j - 1];
      }
    }
  }

  lemma PrependMembers(expenses: map<string, Expense>, page: seq<string>, id: string, shifted: seq<nat>)
    requires page != [] && forall k | k in page :: k in expenses
    requires id in expenses[page[0]].participants
    requires forall i | 1 <= i < |page| :: id in expenses[page[i]].participants <==> i in shifted
    ensures forall i | 0 <= i < |page| :: id in expenses[page[i]].participants <==> i in [0] + shifted
  {
    forall i | 0 <= i < |page|
      ensures id in expenses[page[i]].participants <==> i in [0] + shifted
    {
      assert i in [0] + shifted <==> i == 0 || i in shifted;
    }
  }

  /** `page` lists the keys the scan's first page visits. */
  function GetExpensesByUser(expenses: map<string, Expense>, pathId: Option<string>,
                             page: seq<string>, fault: Option<string>): (r: Invocation)
    requires forall k | k in page :: k in expenses
    ensures r.Raised? <==> pathId.None?
    ensures pathId.Some? && fault.Some? ==> r == Returned(Response(INTERNAL_ERROR, ErrorBody(fault.value)))
    ensures pathId.Some? && fault.None? ==>
      && r.Returned?
      && r.response.statusCode == OK
      && r.response.body.ExpensesBody?
      && r.response.body.items == Matching(expenses, page, pathId.value)
      && (forall e | e in r.response.body.items ::
            pathId.value in e.participants && exists k | k in page :: expenses[k] == e)
      && (forall k | k in page && pathId.value in expenses[k].participants ::
            expenses[k] in r.response.body.items)
  {
    if pathId.None? then Raised(MISSING_PATH_ID)
    else if fault.Some? then Returned(Response(INTERNAL_ERROR, ErrorBody(fault.value)))
    else Returned(Response(OK, ExpensesBody(Matching(expenses, page, pathId.value))))
  }

  /** An id that no expense lists as a participant gets 200 and an empty
      list, never 404 - even when it is the payer of some expense. */
  lemma UnknownParticipantGetsEmptyList(expenses: map<string, Expense>, id: string, page: seq<string>)
    requires forall k | k in page :: k in expenses
    requires forall k | k in expenses :: id !in expenses[k].participants
    ensures GetExpensesByUser(expenses, Some(id), page, None) == Returned(Response(OK, ExpensesBody([])))
  {
    NoMatchIsEmpty(expenses, page, id);
  }

  lemma {:induction false} NoMatchIsEmpty(expenses: map<string, Expense>, page: seq<string>, id: string)
    requires forall k | k in page :: k in expenses
    requires forall k | k in page :: id !in expenses[k].participants
    ensures Matching(expenses, page, id) == []
  {
    if page != [] {
      NoMatchIsEmpty(expenses, page[1..], id);
    }
  }
}
