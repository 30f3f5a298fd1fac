/**
  The in-memory transforms that the four request handlers apply to the user
  collection between loading it from data.json and writing it back: list is
  the identity, create appends, update maps a shallow merge over the matching
  records, and delete filters the matching records out.

  The path id reaches update and delete already coerced by `Number(id)`; the
  model receives that coercion's result as an `Option<int>`, with `None` for
  NaN.
*/
module UserStore {
  import opened Wrappers
  import opened Records

  /** The collection, in file order. */
  type Users = seq<Record>

  // ---------------------------------------------------------------------
  // The transforms

  /** GET /: the loaded collection is sent back as it is. */
  function List(users: Users): (shown: Users)
    ensures shown == users
  {
    users
  }

  /** POST /: `[...users, newUser]`. */
  function Create(users: Users, newUser: Record): (created: Users)
    ensures |created| == |users| + 1
    ensures created[..|users|] == users
    ensures created[|users|] == newUser
  {
    users + [newUser]
  }

  /** The callback that PUT /:id maps over the collection. */
  function UpdateOne(user: Record, target: Option<int>, patch: Record): (updated: Record)
    ensures !Matches(user, target) ==> updated == user
    ensures Matches(user, target) ==> updated.Keys == user.Keys + patch.Keys
    ensures Matches(user, target) ==> forall k :: k in patch ==> updated[k] == patch[k]
    ensures Matches(user, target) ==> forall k :: k in user && k !in patch ==> updated[k] == user[k]
  {
    if Matches(user, target) then Merge(user, patch) else user
  }

  /** PUT /:id: `users.map(user => user.id === Number(id) ? { ...user, ...patch } : user)`. */
  function Update(users: Users, target: Option<int>, patch: Record): (updated: Users)
    ensures |updated| == |users|
  {
    if users == [] then []
    else [UpdateOne(users[0], target, patch)] + Update(users[1..], target, patch)
  }

  /** DELETE /:id: `users.filter(user => user.id !== Number(id))`. */
  function Delete(users: Users, target: Option<int>): (kept: Users)
    ensures |kept| <= |users|
    ensures forall i :: 0 <= i < |kept| ==> kept[i] in users && !Matches(kept[i], target)
  {
    if users == [] then []
    else if Matches(users[0], target) then Delete(users[1..], target)
    else [users[0]] + Delete(users[1..], target)
  }

  // ---------------------------------------------------------------------
  // Reference notions used to state what the transforms do

  /** No record of the collection matches the target. */
  predicate NoMatch(users: Users, target: Option<int>)
  {
    forall i :: 0 <= i < |users| ==> !Matches(users[i], target)
  }

  /** How many records match the target. */
  function MatchCount(users: Users, target: Option<int>): nat
  {
    if users == [] then 0
    else (if Matches(users[0], target) then 1 else 0) + MatchCount(users[1..], target)
  }

  /** `a` is `b` with some elements dropped and the rest kept in order. */
  predicate IsSubsequence(a: Users, b: Users)
    decreases |b|
  {
    if a == [] then true
    else if b == [] then false
    else (a[0] == b[0] && IsSubsequence(a[1..], b[1..])) || IsSubsequence(a, b[1..])
  }

  /** Every numeric id occurs at most once: the convention the store assumes
      but never checks. */
  predicate IdsUnique(users: Users)
  {
    forall i, j :: 0 <= i < j < |users| && IdOf(users[i]).Some? ==> IdOf(users[i]) != IdOf(users[j])
  }

  // ---------------------------------------------------------------------
  // Counting matches

  lemma {:induction false} MatchCountBound(users: Users, target: Option<int>)
    ensures MatchCount(users, target) <= |users|
  {
    if users != [] { MatchCountBound(users[1..], target); }
  }

  /** There are no matches exactly when the count of matches is zero. */
  lemma {:induction false} NoMatchIffCountZero(users: Users, target: Option<int>)
    ensures NoMatch(users, target) <==> MatchCount(users, target) == 0
  {
    if users != [] {
      NoMatchIffCountZero(users[1..], target);
      assert NoMatch(users, target) <==> !Matches(users[0], target) && NoMatch(users[1..], target) by {
        if NoMatch(users, target) {
          forall i | 0 <= i < |users[1..]| ensures !Matches(users[1..][i], target) {
            assert users[1..][i] == users[i + 1];
          }
        }
      }
    }
  }

  /** A NaN path id matches no record at all. */
  lemma NaNMatchesNothing(users: Users)
    ensures NoMatch(users, None)
    ensures MatchCount(users, None) == 0
  {
    NoMatchIffCountZero(users, None);
  }

  // ---------------------------------------------------------------------
  // Update

  /** Update keeps length and order; a record that matches is merged with the
      patch (every matching record, not only the first), any other record is
      returned unchanged at the same index. */
  lemma {:induction false} UpdatePointwise(users: Users, target: Option<int>, patch: Record)
    ensures |Update(users, target, patch)| == |users|
    ensures forall i :: 0 <= i < |users| && Matches(users[i], target) ==>
      Update(users, target, patch)[i] == Merge(users[i], patch)
    ensures forall i :: 0 <= i < |users| && !Matches(users[i], target) ==>
      Update(users, target, patch)[i] == users[i]
  {
    if users != [] {
      UpdatePointwise(users[1..], target, patch);
      var updated := Update(users, target, patch);
      forall i | 1 <= i < |users|
        ensures updated[i] == UpdateOne(users[i], target, patch)
      {
        assert updated[i] == Update(users[1..], target, patch)[i - 1];
        assert users[1..][i - 1] == users[i];
      }
    }
  }

  /** When nothing matches (a NaN path id included) update returns the
      collection unchanged. */
  lemma {:induction false} UpdateNoMatch(users: Users, target: Option<int>, patch: Record)
    requires NoMatch(users, target)
    ensures Update(users, target, patch) == users
  {
    if users != [] {
      assert !Matches(users[0], target);
      assert NoMatch(users[1..], target) by {
        forall i | 0 <= i < |users[1..]| ensures !Matches(users[1..][i], target) {
          assert users[1..][i] == users[i + 1];
        }
      }
      UpdateNoMatch(users[1..], target, patch);
      assert users == [users[0]] + users[1..];
    }
  }

  /** PUT with a non-numeric path id is a no-op. */
  lemma UpdateNaN(users: Users, patch: Record)
    ensures Update(users, None, patch) == users
  {
    NaNMatchesNothing(users);
    UpdateNoMatch(users, None, patch);
  }

  /** Repeating the same PUT gives the same collection. */
  lemma {:induction false} UpdateIdempotent(users: Users, target: Option<int>, patch: Record)
    ensures Update(Update(users, target, patch), target, patch) == Update(users, target, patch)
  {
    if users != [] {
      var once := Update(users, target, patch);
      assert once[1..] == Update(users[1..], target, patch);
      UpdateIdempotent(users[1..], target, patch);
      if Matches(users[0], target) {
        MergeIdempotent(users[0], patch);
      }
    }
  }

  /** A patch without an "id" field leaves every record's id where it was. */
  lemma UpdateKeepsIds(users: Users, target: Option<int>, patch: Record)
    requires "id" !in patch
    ensures |Update(users, target, patch)| == |users|
    ensures forall i :: 0 <= i < |users| ==> IdOf(Update(users, target, patch)[i]) == IdOf(users[i])
  {
    UpdatePointwise(users, target, patch);
    forall i | 0 <= i < |users|
      ensures IdOf(Update(users, target, patch)[i]) == IdOf(users[i])
    {
      MergeKeepsId(users[i], patch);
    }
  }

  /** Such an update therefore keeps ids unique. */
  lemma UpdateKeepsIdsUnique(users: Users, target: Option<int>, patch: Record)
    requires "id" !in patch && IdsUnique(users)
    ensures IdsUnique(Update(users, target, patch))
  {
    UpdateKeepsIds(users, target, patch);
  }

  // ---------------------------------------------------------------------
  // Delete

  /** Delete removes exactly the matching records: the length drops by the
      number of matches. */
  lemma {:induction false} DeleteLength(users: Users, target: Option<int>)
    ensures |Delete(users, target)| == |users| - MatchCount(users, target)
  {
    if users != [] {
      DeleteLength(users[1..], target);
      MatchCountBound(users[1..], target);
    }
  }

  /** The survivors keep their relative order. */
  lemma {:induction false} DeleteKeepsOrder(users: Users, target: Option<int>)
    ensures IsSubsequence(Delete(users, target), users)
  {
    if users != [] {
      var rest := Delete(users[1..], target);
      DeleteKeepsOrder(users[1..], target);
      if !Matches(users[0], target) {
        assert Delete(users, target) == [users[0]] + rest;
        assert ([users[0]] + rest)[1..] == rest;
      }
    }
  }

  /** Every record that does not match survives. */
  lemma {:induction false} DeleteKeepsNonMatching(users: Users, target: Option<int>)
    ensures forall i :: 0 <= i < |users| && !Matches(users[i], target) ==> users[i] in Delete(users, target)
  {
    if users != [] {
      DeleteKeepsNonMatching(users[1..], target);
      forall i | 1 <= i < |users| && !Matches(users[i], target)
        ensures users[i] in Delete(users, target)
      {
        assert users[1..][i - 1] == users[i];
      }
    }
  }

  /** When nothing matches (a NaN path id included) delete returns the
      collection unchanged. */
  lemma {:induction false} DeleteNoMatch(users: Users, target: Option<int>)
    requires NoMatch(users, target)
    ensures Delete(users, target) == users
  {
    if users != [] {
      assert !Matches(users[0], target);
      assert NoMatch(users[1..], target) by {
        forall i | 0 <= i < |users[1..]| ensures !Matches(users[1..][i], target) {
          assert users[1..][i] == users[i + 1];
        }
      }
      DeleteNoMatch(users[1..], target);
      assert users == [users[0]] + users[1..];
    }
  }

  /** DELETE with a non-numeric path id is a no-op. */
  lemma DeleteNaN(users: Users)
    ensures Delete(users, None) == users
  {
    NaNMatchesNothing(users);
    DeleteNoMatch(users, None);
  }

  /** Repeating the same DELETE gives the same collection. */
  lemma DeleteIdempotent(users: Users, target: Option<int>)
    ensures Delete(Delete(users, target), target) == Delete(users, target)
  {
    DeleteNoMatch(Delete(users, target), target);
  }

  /** Filtering distributes over concatenation. */
  lemma {:induction false} DeleteAppend(a: Users, b: Users, target: Option<int>)
    ensures Delete(a + b, target) == Delete(a, target) + Delete(b, target)
  {
    if a != [] {
      assert (a + b)[0] == a[0];
      assert (a + b)[1..] == a[1..] + b;
      DeleteAppend(a[1..], b, target);
    } else {
      assert a + b == b;
    }
  }

  /** With unique ids, delete removes at most one record. */
  lemma {:induction false} UniqueIdsMatchAtMostOnce(users: Users, target: Option<int>)
    requires IdsUnique(users)
    ensures MatchCount(users, target) <= 1
    ensures |Delete(users, target)| >= |users| - 1
  {
    if users != [] {
      assert IdsUnique(users[1..]) by {
        forall i, j | 0 <= i < j < |users[1..]| && IdOf(users[1..][i]).Some?
          ensures IdOf(users[1..][i]) != IdOf(users[1..][j])
        {
          assert users[1..][i] == users[i + 1] && users[1..][j] == users[j + 1];
        }
      }
      UniqueIdsMatchAtMostOnce(users[1..], target);
      if Matches(users[0], target) {
        assert NoMatch(users[1..], target) by {
          forall i | 0 <= i < |users[1..]| ensures !Matches(users[1..][i], target) {
            assert users[1..][i] == users[i + 1];
          }
        }
        NoMatchIffCountZero(users[1..], target);
      }
    }
    DeleteLength(users, target);
  }

  /** Delete keeps ids unique. */
  lemma {:induction false} DeleteKeepsIdsUnique(users: Users, target: Option<int>)
    requires IdsUnique(users)
    ensures IdsUnique(Delete(users, target))
  {
    if users != [] {
      assert IdsUnique(users[1..]) by {
        forall i, j | 0 <= i < j < |users[1..]| && IdOf(users[1..][i]).Some?
          ensures IdOf(users[1..][i]) != IdOf(users[1..][j])
        {
          assert users[1..][i] == users[i + 1] && users[1..][j] == users[j + 1];
        }
      }
      DeleteKeepsIdsUnique(users[1..], target);
      if !Matches(users[0], target) {
        var rest := Delete(users[1..], target);
        var kept := [users[0]] + rest;
        forall i, j | 0 <= i < j < |kept| && IdOf(kept[i]).Some?
          ensures IdOf(kept[i]) != IdOf(kept[j])
        {
          if i == 0 {
            assert kept[j] == rest[j - 1] && rest[j - 1] in users[1..];
            var k :| 0 <= k < |users[1..]| && users[1..][k] == rest[j - 1];
            assert users[1..][k] == users[k + 1];
          } else {
            assert kept[i] == rest[i - 1] && kept[j] == rest[j - 1];
          }
        }
      }
    }
  }

  // ---------------------------------------------------------------------
  // Create, and how the transforms combine

  /** Create keeps ids unique when the new record's id is not already taken;
      the store itself never checks that. */
  lemma CreateKeepsIdsUnique(users: Users, newUser: Record)
    requires IdsUnique(users)
    requires forall i :: 0 <= i < |users| && IdOf(users[i]).Some? ==> IdOf(users[i]) != IdOf(newUser)
    ensures IdsUnique(Create(users, newUser))
  {
  }

  /** Create does not validate ids: posting a record whose id is taken yields
      two records with that id. */
  lemma CreateAcceptsDuplicateId()
    ensures !IdsUnique(Create([map["id" := Num(1)]], map["id" := Num(1), "name" := Str("Ada")]))
  {
    var created := Create([map["id" := Num(1)]], map["id" := Num(1), "name" := Str("Ada")]);
    assert IdOf(created[0]) == Some(1) == IdOf(created[1]);
  }

  /** Deleting the id of a record just created removes it again, along with
      any older record of that id; on a collection without that id the
      original collection comes back. */
  lemma CreateThenDelete(users: Users, newUser: Record, target: Option<int>)
    requires Matches(newUser, target)
    ensures Delete(Create(users, newUser), target) == Delete(users, target)
    ensures NoMatch(users, target) ==> Delete(Create(users, newUser), target) == users
  {
    DeleteAppend(users, [newUser], target);
    assert Delete([newUser], target) == [];
    if NoMatch(users, target) {
      DeleteNoMatch(users, target);
    }
  }

  /** Updating and then deleting the same id is the same as deleting it, as
      long as the patch does not rename the record. */
  lemma {:induction false} UpdateThenDelete(users: Users, target: Option<int>, patch: Record)
    requires "id" !in patch
    ensures Delete(Update(users, target, patch), target) == Delete(users, target)
  {
    if users != [] {
      var updated := Update(users, target, patch);
      assert updated[0] == UpdateOne(users[0], target, patch);
      assert updated[1..] == Update(users[1..], target, patch);
      MergeKeepsId(users[0], patch);
      UpdateThenDelete(users[1..], target, patch);
    }
  }

  /** The end-to-end scenario on an empty store: create Ada with id 1, rename
      her through PUT /1, delete /1, and list an empty collection. */
  lemma AdaScenario()
    ensures var created := Create([], map["id" := Num(1), "name" := Str("Ada")]);
            var renamed := Update(created, Some(1), map["name" := Str("Ada L.")]);
            && created == [map["id" := Num(1), "name" := Str("Ada")]]
            && renamed == [map["id" := Num(1), "name" := Str("Ada L.")]]
            && List(Delete(renamed, Some(1))) == []
  {
    var ada: Record := map["id" := Num(1), "name" := Str("Ada")];
    var created := Create([], ada);
    assert Matches(created[0], Some(1));
    var renamed := Update(created, Some(1), map["name" := Str("Ada L.")]);
    assert renamed[0] == Merge(ada, map["name" := Str("Ada L.")]);
    assert renamed[0] == map["id" := Num(1), "name" := Str("Ada L.")];
  }
}
