/** The identity ledger records.csv: one row per enrolled person, ids
    assigned as the row count plus one, lookup by email in file order. */
module Identities {
  import opened Wrappers
  import opened Csv
  import Decimal

  /** What user_info asks the operator for. */
  datatype Info = Info(firstName: string, lastName: string, email: string, phoneNumber: string, homeAddress: string)
  {
    /** The row new_user writes: the operator's fields plus the id. */
    function WithId(id: string): Identity
    {
      Identity(firstName, lastName, email, phoneNumber, homeAddress, id)
    }
  }

  /** One row of records.csv. */
  datatype Identity = Identity(firstName: string, lastName: string, email: string, phoneNumber: string,
                               homeAddress: string, id: string)

  /** The keys of the record dictionary, in insertion order: the header write_csv writes. */
  const Header: seq<string> := ["first_name", "last_name", "email", "phone_number", "home_address", "id"]

  /** user_id: 1 when records.csv does not exist, otherwise the number of
      data rows plus one, counted row by row. */
  method UserId(records: Option<Table<Identity>>) returns (n: int)
    ensures records.None? ==> n == 1
    ensures records.Some? ==> n == |records.value.rows| + 1
  {
    if records.None? {
      return 1;
    }
    var rows := records.value.rows;
    var userNum := 0;
    for i := 0 to |rows|
      invariant userNum == i
    {
      userNum := userNum + 1;
    }
    return userNum + 1;
  }

  /** Position of the first row, in file order, whose email is `email`. */
  function FirstWithEmail(rows: seq<Identity>, email: string): (r: Option<nat>)
    ensures r.Some? ==> r.value < |rows| && rows[r.value].email == email
    ensures r.Some? ==> forall j :: 0 <= j < r.value ==> rows[j].email != email
    ensures r.None? ==> forall j :: 0 <= j < |rows| ==> rows[j].email != email
  {
    if rows == [] then None
    else if rows[0].email == email then Some(0)
    else match FirstWithEmail(rows[1..], email)
      case None => None
      case Some(i) => Some(i + 1)
  }

  /** The row the email scan of existing_user settles on, if any. */
  function Lookup(rows: seq<Identity>, email: string): (r: Option<Identity>)
    ensures r.Some? ==> r.value in rows && r.value.email == email
    ensures r.None? <==> forall k :: 0 <= k < |rows| ==> rows[k].email != email
  {
    match FirstWithEmail(rows, email)
    case None => None
    case Some(i) => Some(rows[i])
  }

  /** The scan of existing_user: stop at the first row whose email equals
      the claim; report nothing when no row does. */
  method FindByEmail(rows: seq<Identity>, email: string) returns (found: Option<Identity>)
    ensures found == Lookup(rows, email)
  {
    found := None;
    var i := 0;
    while i < |rows|
      invariant 0 <= i <= |rows|
      invariant forall j :: 0 <= j < i ==> rows[j].email != email
    {
      if rows[i].email == email {
        found := Some(rows[i]);
        break;
      }
      i := i + 1;
    }
    if found.Some? {
      var r := FirstWithEmail(rows, email);
      assert r.Some? && r.value == i;
    }
  }

  /** Appending a row never changes which row an email already finds; a
      later row with the same email is shadowed by the earlier one. */
  lemma {:induction false} LookupAfterAppend(rows: seq<Identity>, row: Identity, email: string)
    ensures Lookup(rows + [row], email) ==
            if Lookup(rows, email).Some? then Lookup(rows, email)
            else if row.email == email then Some(row)
            else None
  {
    var r := FirstWithEmail(rows + [row], email);
    var q := FirstWithEmail(rows, email);
    if q.Some? {
      assert (rows + [row])[q.value] == rows[q.value];
      assert r.Some? && r.value == q.value;
    } else if row.email == email {
      assert (rows + [row])[|rows|] == row;
      assert r.Some? && r.value == |rows|;
    } else {
      assert forall j :: 0 <= j < |rows + [row]| ==> (rows + [row])[j].email != email by {
        forall j | 0 <= j < |rows + [row]|
          ensures (rows + [row])[j].email != email
        {
          if j < |rows| { assert (rows + [row])[j] == rows[j]; }
        }
      }
    }
  }

  /** Every row's id is its 1-based position, as user_id assigns them when
      every enrolment appends the row it numbered. */
  ghost predicate IdsSequential(rows: seq<Identity>)
  {
    forall i :: 0 <= i < |rows| ==> rows[i].id == Decimal.NatToString(i + 1)
  }

  /** Sequentially assigned ids are unique, so each row owns its own
      certified/<id> folder. */
  lemma IdsUnique(rows: seq<Identity>, i: nat, j: nat)
    requires IdsSequential(rows)
    requires i < |rows| && j < |rows| && i != j
    ensures rows[i].id != rows[j].id
  {
    Decimal.NatToStringInjective(i + 1, j + 1);
  }

  /** Appending the row numbered by user_id keeps the ids sequential. */
  lemma AppendKeepsIdsSequential(rows: seq<Identity>, info: Info)
    requires IdsSequential(rows)
    ensures IdsSequential(rows + [info.WithId(Decimal.IntToString(|rows| + 1))])
  {
  }
}
