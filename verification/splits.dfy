/** The split-sum rule of AddExpense: the total is taken over the
    `participants` sequence, each occurrence contributing the participant's
    split, an absent split counting as zero. */
module Splits {

  /** `splits.get(p, Decimal("0"))`. */
  function SplitOf(splits: map<string, real>, p: string): real
  {
    if p in splits then splits[p] else 0.0
  }

  /** `sum(splits.get(p, 0) for p in participants)`, exactly. */
  function SplitTotal(participants: seq<string>, splits: map<string, real>): real
  {
    if participants == [] then 0.0
    else SplitOf(splits, participants[0]) + SplitTotal(participants[1..], splits)
  }

  /** `p` repeated `n` times. */
  function Repeat(p: string, n: nat): (r: seq<string>)
    ensures |r| == n && forall i | 0 <= i < n :: r[i] == p
  {
    if n == 0 then [] else [p] + Repeat(p, n - 1)
  }

  /** The total over a concatenation is the sum of the totals. */
  lemma {:induction false} SplitTotalAppend(ps: seq<string>, qs: seq<string>, splits: map<string, real>)
    ensures SplitTotal(ps + qs, splits) == SplitTotal(ps, splits) + SplitTotal(qs, splits)
  {
    if ps != [] {
      assert (ps + qs)[1..] == ps[1..] + qs;
      SplitTotalAppend(ps[1..], qs, splits);
    } else {
      assert ps + qs == qs;
    }
  }

  /** Appending a participant adds exactly that participant's split. */
  lemma SplitTotalSnoc(ps: seq<string>, p: string, splits: map<string, real>)
    ensures SplitTotal(ps + [p], splits) == SplitTotal(ps, splits) + SplitOf(splits, p)
  {
    SplitTotalAppend(ps, [p], splits);
  }

  /** A participant without an entry in `splits` contributes nothing. */
  lemma AbsentParticipantAddsZero(ps: seq<string>, p: string, splits: map<string, real>)
    requires p !in splits
    ensures SplitTotal(ps + [p], splits) == SplitTotal(ps, splits)
  {
    SplitTotalSnoc(ps, p, splits);
  }

  /** A participant listed `n` times contributes `n` times its split. */
  lemma {:induction false} RepeatedParticipant(p: string, n: nat, splits: map<string, real>)
    ensures SplitTotal(Repeat(p, n), splits) == n as real * SplitOf(splits, p)
  {
    if n > 0 {
      assert Repeat(p, n)[1..] == Repeat(p, n - 1);
      RepeatedParticipant(p, n - 1, splits);
    }
  }

  /** The total depends on the splits of the participants only: entries for
      anyone else, or their absence, change nothing. */
  lemma {:induction false} SplitTotalOnlyParticipants(ps: seq<string>, s1: map<string, real>, s2: map<string, real>)
    requires forall i | 0 <= i < |ps| :: SplitOf(s1, ps[i]) == SplitOf(s2, ps[i])
    ensures SplitTotal(ps, s1) == SplitTotal(ps, s2)
  {
    if ps != [] {
      assert forall i | 0 <= i < |ps[1..]| :: ps[1..][i] == ps[i + 1];
      SplitTotalOnlyParticipants(ps[1..], s1, s2);
    }
  }

  /** In particular, a split for a non-participant is ignored by the sum. */
  lemma NonParticipantSplitIgnored(ps: seq<string>, splits: map<string, real>, k: string, v: real)
    requires k !in ps
    ensures SplitTotal(ps, splits[k := v]) == SplitTotal(ps, splits)
  {
    SplitTotalOnlyParticipants(ps, splits[k := v], splits);
  }

  /** Taking one occurrence out of the participants takes its split out of the total. */
  lemma SplitTotalRemoveAt(qs: seq<string>, i: nat, splits: map<string, real>)
    requires i < |qs|
    ensures SplitTotal(qs, splits) == SplitOf(splits, qs[i]) + SplitTotal(qs[..i] + qs[i + 1..], splits)
  {
    assert qs == qs[..i] + [qs[i]] + qs[i + 1..];
    SplitTotalAppend(qs[..i] + [qs[i]], qs[i + 1..], splits);
    SplitTotalSnoc(qs[..i], qs[i], splits);
    SplitTotalAppend(qs[..i], qs[i + 1..], splits);
  }

  lemma MultisetRemoveAt(ps: seq<string>, qs: seq<string>, i: nat)
    requires ps != [] && i < |qs| && qs[i] == ps[0]
    requires multiset(ps) == multiset(qs)
    ensures multiset(ps[1..]) == multiset(qs[..i] + qs[i + 1..])
  {
    var p := ps[0];
    var rest := qs[..i] + qs[i + 1..];
    assert ps == [p] + ps[1..];
    assert qs == qs[..i] + [p] + qs[i + 1..];
    assert multiset(ps) == multiset{p} + multiset(ps[1..]);
    assert multiset(qs) == multiset(qs[..i]) + multiset{p} + multiset(qs[i + 1..]);
    assert multiset(rest) == multiset(qs[..i]) + multiset(qs[i + 1..]);
    forall x
      ensures multiset(ps[1..])[x] == multiset(rest)[x]
    {
      assert multiset(ps)[x] == multiset{p}[x] + multiset(ps[1..])[x];
      assert multiset(qs)[x] == multiset(qs[..i])[x] + multiset{p}[x] + multiset(qs[i + 1..])[x];
    }
  }

  /** The order of the participants does not matter, only how many times
      each one occurs. */
  lemma {:induction false} SplitTotalPermutation(ps: seq<string>, qs: seq<string>, splits: map<string, real>)
    requires multiset(ps) == multiset(qs)
    ensures SplitTotal(ps, splits) == SplitTotal(qs, splits)
  {
    if ps == [] {
      assert |qs| == |multiset(qs)| == 0;
    } else {
      assert ps[0] in multiset(qs);
      var i :| 0 <= i < |qs| && qs[i] == ps[0];
      SplitTotalRemoveAt(qs, i, splits);
      MultisetRemoveAt(ps, qs, i);
      SplitTotalPermutation(ps[1..], qs[..i] + qs[i + 1..], splits);
    }
  }
}
