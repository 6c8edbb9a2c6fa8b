/** `TokenRepository`: the token table and its two derived queries. The table
    is the sequence of its rows. A derived query filters the rows on the
    properties its method name spells out; as it returns an `Optional`, Spring
    Data yields the one matching row, nothing when no row matches, and throws
    when several do. */
module TokenRepository {
  import opened Domain

  /** The outcome of a single-result query: no row, the row at `index`, or the
      exception for several rows. */
  datatype Found = NoRow | OneRow(index: nat, token: Token) | SeveralRows

  /** The filter of `findByTokenValueAndIsDeleted`. */
  predicate HasValueAndFlag(t: Token, tokenValue: string, isDeleted: bool) {
    t.tokenValue == tokenValue && t.isDeleted == isDeleted
  }

  /** The filter of `findByTokenValueAndIsDeletedAndExpiresAtGreaterThan`. */
  predicate HasValueAndFlagAfter(t: Token, tokenValue: string, isDeleted: bool, date: nat) {
    HasValueAndFlag(t, tokenValue, isDeleted) && t.expiresAt > date
  }

  /** The positions of the rows `keep` accepts, in increasing order. */
  function Select(rows: seq<Token>, keep: Token -> bool): (r: seq<nat>)
    ensures forall k :: 0 <= k < |r| ==> r[k] < |rows| && keep(rows[r[k]])
    ensures forall i :: 0 <= i < |rows| && keep(rows[i]) ==> i in r
    ensures forall k, l :: 0 <= k < l < |r| ==> r[k] < r[l]
  {
    if |rows| == 0 then []
    else
      var front := Select(rows[..|rows| - 1], keep);
      if keep(rows[|rows| - 1]) then front + [|rows| - 1] else front
  }

  /** The single-result reading of a filter. */
  function Single(rows: seq<Token>, keep: Token -> bool): (r: Found)
    ensures r.NoRow? <==> forall i :: 0 <= i < |rows| ==> !keep(rows[i])
    ensures r.OneRow? ==>
              && r.index < |rows| && r.token == rows[r.index] && keep(r.token)
              && forall i :: 0 <= i < |rows| && keep(rows[i]) ==> i == r.index
    ensures r.SeveralRows? <==>
              exists i, j :: 0 <= i < j < |rows| && keep(rows[i]) && keep(rows[j])
  {
    var hits := Select(rows, keep);
    if |hits| == 0 then NoRow
    else if |hits| == 1 then OneRow(hits[0], rows[hits[0]])
    else
      assert keep(rows[hits[0]]) && keep(rows[hits[1]]) && hits[0] < hits[1];
      SeveralRows
  }

  /** `findByTokenValueAndIsDeletedAndExpiresAtGreaterThan`. */
  function FindByTokenValueAndIsDeletedAndExpiresAtGreaterThan(
    rows: seq<Token>, tokenValue: string, isDeleted: bool, date: nat): (r: Found)
    ensures r.OneRow? ==>
              && r.index < |rows| && r.token == rows[r.index]
              && r.token.tokenValue == tokenValue && r.token.isDeleted == isDeleted
              && r.token.expiresAt > date
              && forall i :: 0 <= i < |rows| && HasValueAndFlagAfter(rows[i], tokenValue, isDeleted, date) ==> i == r.index
    ensures r.NoRow? <==> forall i :: 0 <= i < |rows| ==> !HasValueAndFlagAfter(rows[i], tokenValue, isDeleted, date)
    ensures r.SeveralRows? <==>
              exists i, j :: 0 <= i < j < |rows|
                && HasValueAndFlagAfter(rows[i], tokenValue, isDeleted, date)
                && HasValueAndFlagAfter(rows[j], tokenValue, isDeleted, date)
  {
    Single(rows, (t: Token) => HasValueAndFlagAfter(t, tokenValue, isDeleted, date))
  }

  /** `findByTokenValueAndIsDeleted`: the same filter without the expiry. */
  function FindByTokenValueAndIsDeleted(rows: seq<Token>, tokenValue: string, isDeleted: bool): (r: Found)
    ensures r.OneRow? ==>
              && r.index < |rows| && r.token == rows[r.index]
              && r.token.tokenValue == tokenValue && r.token.isDeleted == isDeleted
              && forall i :: 0 <= i < |rows| && HasValueAndFlag(rows[i], tokenValue, isDeleted) ==> i == r.index
    ensures r.NoRow? <==> forall i :: 0 <= i < |rows| ==> !HasValueAndFlag(rows[i], tokenValue, isDeleted)
    ensures r.SeveralRows? <==>
              exists i, j :: 0 <= i < j < |rows|
                && HasValueAndFlag(rows[i], tokenValue, isDeleted) && HasValueAndFlag(rows[j], tokenValue, isDeleted)
  {
    Single(rows, (t: Token) => HasValueAndFlag(t, tokenValue, isDeleted))
  }

  /** The strict `GreaterThan` fails closed: a row that expires exactly at
      `date` is never returned, and when it is the only candidate the query
      finds nothing. */
  lemma ExpiryBoundaryExcluded(rows: seq<Token>, tokenValue: string, isDeleted: bool, date: nat)
    requires forall i :: 0 <= i < |rows| && rows[i].tokenValue == tokenValue && rows[i].isDeleted == isDeleted
               ==> rows[i].expiresAt <= date
    ensures FindByTokenValueAndIsDeletedAndExpiresAtGreaterThan(rows, tokenValue, isDeleted, date) == NoRow
  {
  }

  /** Rows that differ only in their expiry. */
  ghost predicate SameButExpiry(rows: seq<Token>, rows': seq<Token>) {
    |rows| == |rows'| && forall i :: 0 <= i < |rows| ==> rows[i].(expiresAt := 0) == rows'[i].(expiresAt := 0)
  }

  /** `findByTokenValueAndIsDeleted` ignores expiry: changing the rows'
      expiries changes neither which row it finds nor whether it finds one. */
  lemma FindIgnoresExpiry(rows: seq<Token>, rows': seq<Token>, tokenValue: string, isDeleted: bool)
    requires SameButExpiry(rows, rows')
    ensures var r, r' := FindByTokenValueAndIsDeleted(rows, tokenValue, isDeleted),
                         FindByTokenValueAndIsDeleted(rows', tokenValue, isDeleted);
            && r.NoRow? == r'.NoRow?
            && r.SeveralRows? == r'.SeveralRows?
            && (r.OneRow? ==> r'.OneRow? && r.index == r'.index)
  {
    forall i | 0 <= i < |rows|
      ensures HasValueAndFlag(rows[i], tokenValue, isDeleted) == HasValueAndFlag(rows'[i], tokenValue, isDeleted)
    {
      assert rows[i].(expiresAt := 0) == rows'[i].(expiresAt := 0);
    }
  }
}
