/** Properties of the abstract store that relate several operations. */
module DatabaseProperties {
  import opened Wrappers
  import opened Text
  import opened Models
  import opened DatabaseHandler

  lemma EmptyStoreValid()
    ensures Valid(EmptyStore)
    ensures GetAllUsers(EmptyStore) == None
  {
  }

  /** Registering keeps keys positive and distinct and leaves every variant row owned. */
  lemma InsertNewIndividualPreservesValid(s: Store, newIndividualId: string, storeFails: bool)
    requires Valid(s)
    ensures Valid(InsertNewIndividual(s, newIndividualId, storeFails).next)
  {
    var t := InsertNewIndividual(s, newIndividualId, storeFails).next;
    if !storeFails {
      forall k | 0 <= k < |t.variants|
        ensures IsUserId(t, t.variants[k].userId)
      {
        var i :| 0 <= i < |s.users| && s.users[i].id == s.variants[k].userId;
        assert t.users[i] == s.users[i];
      }
    }
  }

  /** Inserting variants keeps the foreign key: every new row belongs to a registered user. */
  lemma InsertGeneticDataPreservesValid(s: Store, records: seq<VariantRecord>, individualId: string,
                                        storeFails: bool)
    requires Valid(s)
    ensures Valid(InsertGeneticDataToDb(s, records, individualId, storeFails).next)
  {
    var t := InsertGeneticDataToDb(s, records, individualId, storeFails).next;
    var id := GetIdForIndividualId(s, individualId);
    forall k | 0 <= k < |t.variants|
      ensures IsUserId(t, t.variants[k].userId)
    {
      if k >= |s.variants| {
        var i :| 0 <= i < |s.users| && s.users[i] == User(id.value, individualId);
        assert t.users[i].id == t.variants[k].userId;
      } else {
        assert t.variants[k] == s.variants[k];
      }
    }
  }

  /** In a valid store every registered individual resolves to a key the `if id:` test accepts. */
  lemma ResolvedIdsAreTruthy(s: Store, individualId: string)
    requires Valid(s)
    ensures IsTruthy(GetIdForIndividualId(s, individualId)) <==>
            exists i :: 0 <= i < |s.users| && s.users[i].individualId == individualId
  {
  }

  /**
   * Registering the same name twice yields two user rows with that name and
   * two distinct keys: labels are not unique.
   */
  lemma RegisterTwiceGivesTwoIdentities(s: Store, name: string)
    requires Valid(s)
    ensures var t := InsertNewIndividual(InsertNewIndividual(s, name, false).next, name, false).next;
            && |t.users| == |s.users| + 2
            && t.users[|s.users|].individualId == name
            && t.users[|s.users| + 1].individualId == name
            && t.users[|s.users|].id != t.users[|s.users| + 1].id
  {
    var s1 := InsertNewIndividual(s, name, false).next;
    var t := InsertNewIndividual(s1, name, false).next;
    assert t.users[|s.users|] == s1.users[|s.users|];
  }

  /**
   * After registering a name that was not present, it resolves to the new
   * key; a name that was present keeps resolving to its earlier key.
   */
  lemma RegisterThenResolve(s: Store, name: string, other: string)
    requires Valid(s)
    ensures var t := InsertNewIndividual(s, name, false).next;
            && (GetIdForIndividualId(s, name).None? ==> GetIdForIndividualId(t, name) == Some(t.users[|s.users|].id))
            && (GetIdForIndividualId(s, name).Some? ==> GetIdForIndividualId(t, name) == GetIdForIndividualId(s, name))
            && (other != name ==> GetIdForIndividualId(t, other) == GetIdForIndividualId(s, other))
  {
    var t := InsertNewIndividual(s, name, false).next;
    assert t.users == s.users + [User(NextId(s), name)];
    FirstIdWithLabelAppend(s.users, User(NextId(s), name), name);
    FirstIdWithLabelAppend(s.users, User(NextId(s), name), other);
  }

  /** Appending a row changes a lookup only if nothing earlier matched. */
  lemma {:induction false} FirstIdWithLabelAppend(users: seq<User>, u: User, individualId: string)
    ensures FirstIdWithLabel(users + [u], individualId) ==
            if FirstIdWithLabel(users, individualId).Some? then FirstIdWithLabel(users, individualId)
            else if u.individualId == individualId then Some(u.id)
            else None
  {
    if |users| > 0 {
      assert (users + [u])[1..] == users[1..] + [u];
      FirstIdWithLabelAppend(users[1..], u, individualId);
    }
  }

  /** Selecting from concatenated tables concatenates the selections. */
  lemma {:induction false} SelectRowsAppend(a: seq<VariantRow>, b: seq<VariantRow>, id: nat,
                                           filter: Option<seq<string>>)
    ensures SelectRows(a + b, id, filter) == SelectRows(a, id, filter) + SelectRows(b, id, filter)
  {
    if |a| > 0 {
      assert (a + b)[0] == a[0];
      assert (a + b)[1..] == a[1..] + b;
      SelectRowsAppend(a[1..], b, id, filter);
    } else {
      assert a + b == b;
    }
  }

  /** Rows written for one key come back, in full and in order, for that key and never for another. */
  lemma {:induction false} SelectTagged(id: nat, records: seq<VariantRecord>, other: nat)
    ensures SelectRows(Tagged(id, records), id, None) == records
    ensures other != id ==> forall filter :: SelectRows(Tagged(id, records), other, filter) == []
  {
    var rows := Tagged(id, records);
    if |records| > 0 {
      assert rows[1..] == Tagged(id, records[1..]);
      SelectTagged(id, records[1..], other);
      assert [records[0]] + records[1..] == records;
    }
  }

  /**
   * Ingest then query: after an insert for an individual with no store
   * error, an unfiltered query for that individual returns the earlier records
   * plus exactly the inserted ones (as a multiset: no order is promised) when
   * every position fits an `INTEGER`, and the earlier records alone when one
   * does not; the answer for an individual with another key does not change.
   */
  lemma IngestThenQuery(s: Store, records: seq<VariantRecord>, individualId: string, other: string)
    requires Valid(s)
    requires GetIdForIndividualId(s, individualId).Some?
    ensures var t := InsertGeneticDataToDb(s, records, individualId, false).next;
            && GetIndividualData(s, individualId, None).Rows?
            && GetIndividualData(t, individualId, None).Rows?
            && multiset(GetIndividualData(t, individualId, None).records)
               == multiset(GetIndividualData(s, individualId, None).records)
                  + (if Bindable(records) then multiset(records) else multiset{})
            && (GetIdForIndividualId(s, other) != GetIdForIndividualId(s, individualId) ==>
                forall variants :: GetIndividualData(t, other, variants) == GetIndividualData(s, other, variants))
  {
    ResolvedIdsAreTruthy(s, individualId);
    if Bindable(records) {
      AppendThenQuery(s, records, individualId, other);
    } else {
      assert InsertGeneticDataToDb(s, records, individualId, false).next == s;
    }
  }

  /** The committed case of `IngestThenQuery`, where the insert appends the tagged rows. */
  lemma AppendThenQuery(s: Store, records: seq<VariantRecord>, individualId: string, other: string)
    requires Valid(s)
    requires IsTruthy(GetIdForIndividualId(s, individualId))
    requires Bindable(records)
    ensures var t := InsertGeneticDataToDb(s, records, individualId, false).next;
            && multiset(GetIndividualData(t, individualId, None).records)
               == multiset(GetIndividualData(s, individualId, None).records) + multiset(records)
            && (GetIdForIndividualId(s, other) != GetIdForIndividualId(s, individualId) ==>
                forall variants :: GetIndividualData(t, other, variants) == GetIndividualData(s, other, variants))
  {
    var t := InsertGeneticDataToDb(s, records, individualId, false).next;
    var id := GetIdForIndividualId(s, individualId).value;
    assert t.variants == s.variants + Tagged(id, records);
    SelectRowsAppend(s.variants, Tagged(id, records), id, None);
    SelectTagged(id, records, id);
    var o := GetIdForIndividualId(s, other);
    if o != Some(id) && o.Some? {
      SelectTagged(id, records, o.value);
      forall variants
        ensures GetIndividualData(t, other, variants) == GetIndividualData(s, other, variants)
      {
        SelectRowsAppend(s.variants, Tagged(id, records), o.value, VariantFilter(variants));
      }
    }
  }

  /**
   * Register then list: a committed registration extends the user listing
   * by exactly one row, the new label under the next fresh key, after the
   * rows listed before (none, for an empty registry); a rolled-back one
   * leaves the listing as it was.
   */
  lemma RegisterThenListUsers(s: Store, name: string)
    ensures GetAllUsers(InsertNewIndividual(s, name, false).next)
            == Some((if GetAllUsers(s).Some? then GetAllUsers(s).value else []) + [User(NextId(s), name)])
    ensures GetAllUsers(InsertNewIndividual(s, name, true).next) == GetAllUsers(s)
  {
  }

  /** An individual not in the registry gets no rows written and "Individual not found". */
  lemma UnknownIndividualNoWrite(s: Store, records: seq<VariantRecord>, individualId: string, storeFails: bool)
    requires forall i :: 0 <= i < |s.users| ==> s.users[i].individualId != individualId
    ensures InsertGeneticDataToDb(s, records, individualId, storeFails) == Step(s, Success(IndividualNotFoundMessage))
    ensures GetIndividualData(s, individualId, None) == Message(UserNotFoundMessage)
  {
  }

  /** The records among `recs` whose variant id is listed. */
  function KeepListed(recs: seq<VariantRecord>, ids: seq<string>): (r: seq<VariantRecord>)
    ensures forall rec :: rec in r <==> rec in recs && rec.variantId in ids
  {
    if |recs| == 0 then []
    else
      var rest := KeepListed(recs[1..], ids);
      assert forall rec :: rec in recs <==> rec == recs[0] || rec in recs[1..];
      if recs[0].variantId in ids then [recs[0]] + rest else rest
  }

  lemma {:induction false} SelectFilteredIsKept(rows: seq<VariantRow>, id: nat, ids: seq<string>)
    ensures SelectRows(rows, id, Some(ids)) == KeepListed(SelectRows(rows, id, None), ids)
  {
    if |rows| > 0 {
      SelectFilteredIsKept(rows[1..], id, ids);
    }
  }

  /** The set of variant ids among some records. */
  function VariantIds(recs: seq<VariantRecord>): set<string> {
    set rec | rec in recs :: rec.variantId
  }

  /**
   * A non-empty filter narrows the unfiltered answer to the records whose ids
   * are listed, in the same relative order; the ids returned are exactly the
   * stored ids that are also listed. An empty filter text filters nothing.
   */
  lemma FilteredQuery(s: Store, individualId: string, variants: string)
    requires IsTruthy(GetIdForIndividualId(s, individualId))
    ensures variants == "" ==> GetIndividualData(s, individualId, Some(variants)) == GetIndividualData(s, individualId, None)
    ensures variants != "" ==>
              var all := GetIndividualData(s, individualId, None).records;
              var listed := Split(variants, ',');
              && GetIndividualData(s, individualId, Some(variants)).records == KeepListed(all, listed)
              && VariantIds(GetIndividualData(s, individualId, Some(variants)).records)
                 == VariantIds(all) * set v | v in listed
  {
    if variants != "" {
      var id := GetIdForIndividualId(s, individualId).value;
      var listed := Split(variants, ',');
      SelectFilteredIsKept(s.variants, id, listed);
    }
  }
}
