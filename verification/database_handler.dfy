/**
 * The `DatabaseHandler` as an abstract store: the `users` table and the
 * `genetic_data_table` become two sequences of rows in insertion order.
 * A failing SQL statement (the `sqlite3.DatabaseError` path, which rolls back)
 * is the caller-chosen flag `storeFails`.
 */
module DatabaseHandler {
  import opened Wrappers
  import opened Text
  import opened Models

  /** A row of `users`: surrogate key and external individual label. */
  datatype User = User(id: nat, individualId: string)

  /** A row of `genetic_data_table`: the owning user's key and the variant. */
  datatype VariantRow = VariantRow(userId: nat, record: VariantRecord)

  datatype Store = Store(users: seq<User>, variants: seq<VariantRow>)

  /** A store transition together with what the operation returned. */
  datatype Step<T> = Step(next: Store, reply: T)

  /** The freshly created database: both tables empty. */
  const EmptyStore := Store([], [])

  const InsertedMessage := "Succesfully inserted data"
  const IndividualNotFoundMessage := "Individual not found"
  const UserNotFoundMessage := "User not found"

  predicate IsUserId(s: Store, id: nat) {
    exists i :: 0 <= i < |s.users| && s.users[i].id == id
  }

  /**
   * What the tables keep: positive, pairwise distinct user keys, and every
   * variant row owned by an existing user (the foreign key).
   */
  predicate Valid(s: Store) {
    && (forall i :: 0 <= i < |s.users| ==> s.users[i].id > 0)
    && (forall i, j :: 0 <= i < j < |s.users| ==> s.users[i].id != s.users[j].id)
    && (forall k :: 0 <= k < |s.variants| ==> IsUserId(s, s.variants[k].userId))
  }

  /** The largest key in use, 0 for no rows. */
  function MaxId(users: seq<User>): (m: nat)
    ensures forall i :: 0 <= i < |users| ==> users[i].id <= m
    ensures |users| == 0 ==> m == 0
    ensures |users| > 0 ==> exists i :: 0 <= i < |users| && users[i].id == m
  {
    if |users| == 0 then 0
    else
      var m := MaxId(users[..|users| - 1]);
      if users[|users| - 1].id > m then users[|users| - 1].id else m
  }

  /**
   * The key `AUTOINCREMENT` hands out next: greater than every key issued
   * (rows are never deleted, so the largest issued key is the largest present).
   */
  function NextId(s: Store): (id: nat)
    ensures id > 0
    ensures forall i :: 0 <= i < |s.users| ==> s.users[i].id < id
  {
    MaxId(s.users) + 1
  }

  /**
   * `insert_new_individual`: appends a user row with a fresh key, whether or
   * not the label is already registered; the reply is the same even when the
   * insert fails and is rolled back.
   */
  function InsertNewIndividual(s: Store, newIndividualId: string, storeFails: bool): (r: Step<string>)
    ensures r.reply == "User " + newIndividualId + " created"
    ensures r.next.variants == s.variants
    ensures storeFails ==> r.next == s
    ensures !storeFails ==>
              && |r.next.users| == |s.users| + 1
              && r.next.users[..|s.users|] == s.users
              && r.next.users[|s.users|].individualId == newIndividualId
              && r.next.users[|s.users|].id > 0
              && forall i :: 0 <= i < |s.users| ==> s.users[i].id != r.next.users[|s.users|].id
  {
    var next := if storeFails then s else s.(users := s.users + [User(NextId(s), newIndividualId)]);
    Step(next, "User " + newIndividualId + " created")
  }

  /**
   * `SELECT id FROM users WHERE individual_id = ?` followed by `fetchone()`:
   * the key of the first matching row in table order, or `None`.
   */
  function FirstIdWithLabel(users: seq<User>, individualId: string): (r: Option<nat>)
    ensures r.None? <==> forall i :: 0 <= i < |users| ==> users[i].individualId != individualId
    ensures r.Some? ==> exists i :: 0 <= i < |users| && users[i].individualId == individualId
                                    && users[i].id == r.value
                                    && forall j :: 0 <= j < i ==> users[j].individualId != individualId
  {
    if |users| == 0 then None
    else if users[0].individualId == individualId then Some(users[0].id)
    else
      var r := FirstIdWithLabel(users[1..], individualId);
      assert forall i :: 1 <= i < |users| ==> users[1..][i - 1] == users[i];
      r
  }

  /** `get_id_for_individual_id`: exact label match, no trimming or case folding. */
  function GetIdForIndividualId(s: Store, individualId: string): (r: Option<nat>)
    ensures r.None? <==> forall i :: 0 <= i < |s.users| ==> s.users[i].individualId != individualId
    ensures r.Some? ==> exists i :: 0 <= i < |s.users| && s.users[i] == User(r.value, individualId)
  {
    FirstIdWithLabel(s.users, individualId)
  }

  /** The callers' `if id:` test: a key of 0 would count as absent. */
  predicate IsTruthy(id: Option<nat>) {
    id.Some? && id.value != 0
  }

  /** One `genetic_data_table` row per record, all owned by `id`, in order. */
  function Tagged(id: nat, records: seq<VariantRecord>): (rows: seq<VariantRow>)
    ensures |rows| == |records|
    ensures forall i :: 0 <= i < |rows| ==> rows[i] == VariantRow(id, records[i])
  {
    seq(|records|, i requires 0 <= i < |records| => VariantRow(id, records[i]))
  }

  /** The range of SQLite's `INTEGER` storage class: signed 64-bit. */
  const MinSqlInteger: int := -0x8000_0000_0000_0000
  const MaxSqlInteger: int := 0x7FFF_FFFF_FFFF_FFFF

  /**
   * Whether `sqlite3` can bind every record's position: a Python `int` outside
   * the `INTEGER` range makes the bind raise `OverflowError`.
   */
  predicate Bindable(records: seq<VariantRecord>) {
    forall i :: 0 <= i < |records| ==> MinSqlInteger <= records[i].position <= MaxSqlInteger
  }

  /**
   * `insert_genetic_data_to_db`: with an unknown individual nothing is
   * written; otherwise all records are appended under the individual's key in
   * one transaction, which a store error rolls back entirely. The reply does
   * not tell the rollback apart from success. A position that does not fit
   * an `INTEGER` raises `OverflowError`, which the `except sqlite3.DatabaseError`
   * clause does not catch: the exception leaves the call, and the connection
   * is closed without a commit, so nothing is written.
   */
  function InsertGeneticDataToDb(s: Store, records: seq<VariantRecord>, individualId: string,
                                 storeFails: bool): (r: Step<Result<string, Error>>)
    ensures !IsTruthy(GetIdForIndividualId(s, individualId)) ==> r == Step(s, Success(IndividualNotFoundMessage))
    ensures IsTruthy(GetIdForIndividualId(s, individualId)) && !Bindable(records) ==>
              r == Step(s, Failure(PositionOverflow))
    ensures IsTruthy(GetIdForIndividualId(s, individualId)) && Bindable(records) ==>
              r.reply == Success(InsertedMessage)
    ensures r.next.users == s.users
    ensures r.next.variants == s.variants || r.next.variants == s.variants + Tagged(GetIdForIndividualId(s, individualId).value, records)
    ensures storeFails ==> r.next == s
    ensures IsTruthy(GetIdForIndividualId(s, individualId)) && Bindable(records) && !storeFails ==>
              && |r.next.variants| == |s.variants| + |records|
              && r.next.variants[..|s.variants|] == s.variants
              && forall i :: 0 <= i < |records| ==>
                   r.next.variants[|s.variants| + i] == VariantRow(GetIdForIndividualId(s, individualId).value, records[i])
  {
    var id := GetIdForIndividualId(s, individualId);
    if !IsTruthy(id) then
      Step(s, Success(IndividualNotFoundMessage))
    else if !Bindable(records) then
      Step(s, Failure(PositionOverflow))
    else
      var next := if storeFails then s else s.(variants := s.variants + Tagged(id.value, records));
      Step(next, Success(InsertedMessage))
  }

  /** The variant ids of the `variants` query parameter, when it is given and non-empty. */
  function VariantFilter(variants: Option<string>): (r: Option<seq<string>>)
    ensures r.None? <==> variants.None? || variants.value == ""
    ensures r.Some? ==> |r.value| >= 1 && Join(r.value, ',') == variants.value
    ensures r.Some? ==> forall i :: 0 <= i < |r.value| ==> ',' !in r.value[i]
  {
    if variants.Some? && variants.value != "" then Some(Split(variants.value, ',')) else None
  }

  /** The `variant_id IN (...)` condition, or no condition. */
  predicate Admits(filter: Option<seq<string>>, variantId: string) {
    filter.None? || variantId in filter.value
  }

  /**
   * `SELECT ... WHERE user_id = ? [AND variant_id IN (...)]` over the rows in
   * table order. There is no `DISTINCT`: a record comes back once for every
   * matching row.
   */
  function SelectRows(rows: seq<VariantRow>, id: nat, filter: Option<seq<string>>): (r: seq<VariantRecord>)
    ensures |r| <= |rows|
    ensures forall rec :: rec in r <==>
              exists k :: 0 <= k < |rows| && rows[k] == VariantRow(id, rec) && Admits(filter, rec.variantId)
    ensures forall rec {:trigger multiset(r)[rec]} :: multiset(r)[rec] ==
              (if Admits(filter, rec.variantId) then multiset(rows)[VariantRow(id, rec)] else 0)
  {
    if |rows| == 0 then []
    else
      var rest := SelectRows(rows[1..], id, filter);
      var r := if rows[0].userId == id && Admits(filter, rows[0].record.variantId) then [rows[0].record] + rest else rest;
      SelectRowsStep(rows, id, filter, rest, r);
      r
  }

  /** One step of `SelectRows`: keeping or skipping the first row keeps the membership and the counts exact. */
  lemma SelectRowsStep(rows: seq<VariantRow>, id: nat, filter: Option<seq<string>>,
                       rest: seq<VariantRecord>, r: seq<VariantRecord>)
    requires |rows| > 0
    requires forall rec :: rec in rest <==>
               exists k :: 0 <= k < |rows[1..]| && rows[1..][k] == VariantRow(id, rec) && Admits(filter, rec.variantId)
    requires forall rec {:trigger multiset(rest)[rec]} :: multiset(rest)[rec] ==
               (if Admits(filter, rec.variantId) then multiset(rows[1..])[VariantRow(id, rec)] else 0)
    requires r == if rows[0].userId == id && Admits(filter, rows[0].record.variantId) then [rows[0].record] + rest else rest
    ensures forall rec :: rec in r <==>
              exists k :: 0 <= k < |rows| && rows[k] == VariantRow(id, rec) && Admits(filter, rec.variantId)
    ensures forall rec {:trigger multiset(r)[rec]} :: multiset(r)[rec] ==
              (if Admits(filter, rec.variantId) then multiset(rows)[VariantRow(id, rec)] else 0)
  {
    assert forall rec :: rec in r <==>
             exists k :: 0 <= k < |rows| && rows[k] == VariantRow(id, rec) && Admits(filter, rec.variantId) by {
      assert forall k :: 1 <= k < |rows| ==> rows[1..][k - 1] == rows[k];
    }
    assert multiset(rows) == multiset{rows[0]} + multiset(rows[1..]) by {
      assert rows == [rows[0]] + rows[1..];
    }
    if rows[0].userId == id && Admits(filter, rows[0].record.variantId) {
      assert multiset(r) == multiset{rows[0].record} + multiset(rest);
    }
  }

  /** What `get_individual_data` returns: a list of records or a message. */
  datatype QueryAnswer = Rows(records: seq<VariantRecord>) | Message(text: string)

  /**
   * `get_individual_data`: "User not found" for an unknown individual;
   * otherwise that individual's records, restricted to the listed variant ids
   * when a non-empty filter is given. No order is promised: the rows come back
   * in table order here.
   */
  function GetIndividualData(s: Store, individualId: string, variants: Option<string>): (r: QueryAnswer)
    ensures r.Message? <==> !IsTruthy(GetIdForIndividualId(s, individualId))
    ensures r.Message? ==> r.text == UserNotFoundMessage
    ensures r.Rows? ==> forall rec :: rec in r.records <==>
              exists k :: 0 <= k < |s.variants|
                          && s.variants[k] == VariantRow(GetIdForIndividualId(s, individualId).value, rec)
                          && Admits(VariantFilter(variants), rec.variantId)
    ensures r.Rows? ==> forall rec {:trigger multiset(r.records)[rec]} ::
              multiset(r.records)[rec] ==
              (if Admits(VariantFilter(variants), rec.variantId)
               then multiset(s.variants)[VariantRow(GetIdForIndividualId(s, individualId).value, rec)]
               else 0)
  {
    var id := GetIdForIndividualId(s, individualId);
    if IsTruthy(id) then Rows(SelectRows(s.variants, id.value, VariantFilter(variants)))
    else Message(UserNotFoundMessage)
  }

  /** `get_all_users`: every user row, or `None` when there are none. */
  function GetAllUsers(s: Store): (r: Option<seq<User>>)
    ensures r.None? <==> |s.users| == 0
    ensures r.Some? ==> r.value == s.users
  {
    if |s.users| == 0 then None else Some(s.users)
  }
}
