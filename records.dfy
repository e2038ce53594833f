/** The records a vesting schedule is made of. Both generator commands declare
    the same `Period` and `Token` structs; they are defined once here. Amounts
    and lengths are numbers (the serialised output writes them as decimal
    strings, which is not modelled). */
module Records {

  datatype Option<T> = None | Some(value: T)

  /** An amount of tokens of one denomination. */
  datatype Token = Token(denom: string, amount: nat)

  /** One disbursement: `amount` is released `length` seconds after the start. */
  datatype Period = Period(length: nat, amount: Token)

  /** The sum of the amounts released by a schedule, as the unit tests add them up. */
  function TotalAmount(s: seq<Period>): nat
  {
    if s == [] then 0 else TotalAmount(s[..|s| - 1]) + s[|s| - 1].amount.amount
  }

  /** Lengths are strictly increasing: the schedule is in chronological order. */
  ghost predicate Chronological(s: seq<Period>)
  {
    forall j, k :: 0 <= j < k < |s| ==> s[j].length < s[k].length
  }

  /** Dropping the last record of a chronological schedule leaves one that is
      still chronological and ends before that record. */
  lemma ChronologicalInit(s: seq<Period>, p: Period)
    requires Chronological(s + [p])
    ensures Chronological(s)
    ensures forall k :: 0 <= k < |s| ==> s[k].length < p.length
  {
    forall j, k | 0 <= j < k < |s|
      ensures s[j].length < s[k].length
    {
      assert s[j] == (s + [p])[j] && s[k] == (s + [p])[k];
    }
    forall k | 0 <= k < |s|
      ensures s[k].length < p.length
    {
      assert s[k] == (s + [p])[k] && p == (s + [p])[|s|];
    }
  }

  /** Appending a record later than every existing one keeps the order. */
  lemma ChronologicalSnoc(s: seq<Period>, p: Period)
    requires Chronological(s)
    requires forall k :: 0 <= k < |s| ==> s[k].length < p.length
    ensures Chronological(s + [p])
  {
    forall j, k | 0 <= j < k < |s| + 1
      ensures (s + [p])[j].length < (s + [p])[k].length
    {
      assert (s + [p])[j] == s[j];
    }
  }
}
