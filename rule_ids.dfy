/** The list of selected rule ids and the two ways the selector rebuilds it:
    dropping every occurrence of an id (`filter`) and appending one (array spread). */
module RuleIds {

  type RuleId = string

  /** The set view of a list of rule ids. */
  function Elems(ids: seq<RuleId>): set<RuleId>
  {
    set x | x in ids
  }

  predicate NoDuplicates(ids: seq<RuleId>)
  {
    forall i, j :: 0 <= i < j < |ids| ==> ids[i] != ids[j]
  }

  /** `sub` is `ids` with some elements left out and the rest in their original order. */
  ghost predicate IsSubsequence(sub: seq<RuleId>, ids: seq<RuleId>)
    decreases |ids|
  {
    if sub == [] then true
    else if ids == [] then false
    else if sub[0] == ids[0] then IsSubsequence(sub[1..], ids[1..])
    else IsSubsequence(sub, ids[1..])
  }

  /** Every element of `ids` other than `id`, in their original order. */
  function Without(ids: seq<RuleId>, id: RuleId): (r: seq<RuleId>)
    ensures id !in r
    ensures forall x :: x != id ==> (x in r <==> x in ids)
    ensures multiset(r) == multiset(ids)[id := 0]
    ensures |r| == |ids| - multiset(ids)[id]
  {
    if ids == [] then []
    else
      var rest := Without(ids[1..], id);
      assert ids == [ids[0]] + ids[1..];
      if ids[0] == id then rest else [ids[0]] + rest
  }

  /** The new `rule_ids` after a rule row is clicked: every occurrence of `id`
      removed when it is present, `id` appended at the end when it is absent. */
  function Toggled(ids: seq<RuleId>, id: RuleId): (r: seq<RuleId>)
    ensures id in r <==> id !in ids
    ensures forall x :: x != id ==> (x in r <==> x in ids)
  {
    if id in ids then Without(ids, id) else ids + [id]
  }

  /** The filter keeps the other ids in their original relative order and drops nothing but `id`. */
  lemma {:induction false} WithoutIsSubsequence(ids: seq<RuleId>, id: RuleId)
    ensures IsSubsequence(Without(ids, id), ids)
  {
    if ids != [] {
      WithoutIsSubsequence(ids[1..], id);
      var rest := Without(ids[1..], id);
      if ids[0] == id {
        // `id` is not in `rest`, so the head of `ids` is skipped.
        if rest != [] {
          assert rest[0] in rest;
          assert rest[0] != ids[0];
        }
      } else {
        assert ([ids[0]] + rest)[1..] == rest;
      }
    }
  }

  /** Filtering out an id that is absent gives back the same list. */
  lemma {:induction false} WithoutAbsent(ids: seq<RuleId>, id: RuleId)
    requires id !in ids
    ensures Without(ids, id) == ids
  {
    if ids != [] {
      assert ids[0] != id;
      assert id !in ids[1..];
      WithoutAbsent(ids[1..], id);
      assert ids == [ids[0]] + ids[1..];
    }
  }

  /** The filter works element by element, so it distributes over concatenation. */
  lemma {:induction false} WithoutConcat(a: seq<RuleId>, b: seq<RuleId>, id: RuleId)
    ensures Without(a + b, id) == Without(a, id) + Without(b, id)
  {
    if a != [] {
      assert (a + b)[1..] == a[1..] + b;
      assert (a + b)[0] == a[0];
      WithoutConcat(a[1..], b, id);
    } else {
      assert a + b == b;
    }
  }

  /** Filtering keeps a list free of duplicates. */
  lemma {:induction false} WithoutNoDuplicates(ids: seq<RuleId>, id: RuleId)
    requires NoDuplicates(ids)
    ensures NoDuplicates(Without(ids, id))
  {
    if ids != [] {
      assert NoDuplicates(ids[1..]) by {
        forall i, j | 0 <= i < j < |ids[1..]| ensures ids[1..][i] != ids[1..][j] {
          assert ids[1..][i] == ids[i + 1] && ids[1..][j] == ids[j + 1];
        }
      }
      WithoutNoDuplicates(ids[1..], id);
      var rest := Without(ids[1..], id);
      if ids[0] != id {
        assert ids[0] !in ids[1..] by {
          forall k | 0 <= k < |ids[1..]| ensures ids[1..][k] != ids[0] {
            assert ids[1..][k] == ids[k + 1];
          }
        }
        assert ids[0] !in rest;
        var r := [ids[0]] + rest;
        forall i, j | 0 <= i < j < |r| ensures r[i] != r[j] {
          if i == 0 {
            assert r[j] == rest[j - 1];
            assert rest[j - 1] in rest;
          } else {
            assert r[i] == rest[i - 1] && r[j] == rest[j - 1];
          }
        }
      }
    }
  }

  /** A duplicate-free list has exactly as many distinct ids as elements. */
  lemma {:induction false} NoDuplicatesCardinality(ids: seq<RuleId>)
    requires NoDuplicates(ids)
    ensures |Elems(ids)| == |ids|
  {
    if ids != [] {
      var tail := ids[1..];
      assert NoDuplicates(tail) by {
        forall i, j | 0 <= i < j < |tail| ensures tail[i] != tail[j] {
          assert tail[i] == ids[i + 1] && tail[j] == ids[j + 1];
        }
      }
      NoDuplicatesCardinality(tail);
      assert ids[0] !in Elems(tail) by {
        forall k | 0 <= k < |tail| ensures tail[k] != ids[0] {
          assert tail[k] == ids[k + 1];
        }
      }
      assert ids == [ids[0]] + tail;
      assert Elems(ids) == Elems(tail) + {ids[0]};
    }
  }

  /** A duplicate-free list holds exactly one occurrence of each of its ids. */
  lemma NoDuplicatesCount(ids: seq<RuleId>, id: RuleId)
    requires NoDuplicates(ids) && id in ids
    ensures multiset(ids)[id] == 1
  {
    var k :| 0 <= k < |ids| && ids[k] == id;
    assert ids == ids[..k] + [id] + ids[k + 1..];
    assert id !in ids[..k] by {
      forall i | 0 <= i < k ensures ids[..k][i] != id { assert ids[..k][i] == ids[i]; }
    }
    var after := ids[k + 1..];
    assert id !in after by {
      forall i | 0 <= i < |after| ensures after[i] != id { assert after[i] == ids[k + 1 + i]; }
    }
    calc {
      multiset(ids)[id];
      (multiset(ids[..k]) + multiset([id]) + multiset(ids[k + 1..]))[id];
      multiset(ids[..k])[id] + 1 + multiset(ids[k + 1..])[id];
    }
  }

  /** Toggling a present id removes every occurrence of it and keeps the others
      in their relative order; no other id is added or lost. */
  lemma TogglePresent(ids: seq<RuleId>, id: RuleId)
    requires id in ids
    ensures id !in Toggled(ids, id)
    ensures IsSubsequence(Toggled(ids, id), ids)
    ensures multiset(Toggled(ids, id)) == multiset(ids)[id := 0]
    ensures |Toggled(ids, id)| < |ids|
  {
    WithoutIsSubsequence(ids, id);
  }

  /** Toggling an absent id appends it: one longer, the old list as prefix, `id` last. */
  lemma ToggleAbsent(ids: seq<RuleId>, id: RuleId)
    requires id !in ids
    ensures |Toggled(ids, id)| == |ids| + 1
    ensures Toggled(ids, id)[..|ids|] == ids
    ensures Toggled(ids, id)[|ids|] == id
  {
  }

  /** Toggling the same id twice gives back the same set of ids; the same list when the
      id was absent, and the list with the id moved to the end when it was present. */
  lemma ToggleTwice(ids: seq<RuleId>, id: RuleId)
    ensures Elems(Toggled(Toggled(ids, id), id)) == Elems(ids)
    ensures id !in ids ==> Toggled(Toggled(ids, id), id) == ids
    ensures id in ids ==> Toggled(Toggled(ids, id), id) == Without(ids, id) + [id]
  {
    var once := Toggled(ids, id);
    ToggleElems(ids, id);
    ToggleElems(once, id);
    if id !in ids {
      assert once == ids + [id];
      WithoutConcat(ids, [id], id);
      WithoutAbsent(ids, id);
      assert Without([id], id) == [];
      assert ids + [] == ids;
    }
  }

  /** Toggling a present id twice gives back the very same list exactly when the id
      occurs once and is already the last element. */
  lemma ToggleTwicePresentUnchanged(ids: seq<RuleId>, id: RuleId)
    requires id in ids
    ensures Toggled(Toggled(ids, id), id) == ids <==> ids[|ids| - 1] == id && multiset(ids)[id] == 1
  {
    ToggleTwice(ids, id);
    var n := |ids| - 1;
    var back := Without(ids, id) + [id];
    assert multiset(back)[id] == 1;
    if ids[n] == id && multiset(ids)[id] == 1 {
      var prefix := ids[..n];
      assert ids == prefix + [id];
      assert multiset(ids) == multiset(prefix) + multiset([id]);
      assert id !in prefix;
      WithoutConcat(prefix, [id], id);
      WithoutAbsent(prefix, id);
      assert Without([id], id) == [];
      assert Without(ids, id) == prefix;
    }
  }

  /** The set view of a toggle: the id leaves the set when it was in it, and joins it otherwise. */
  lemma ToggleElems(ids: seq<RuleId>, id: RuleId)
    ensures Elems(Toggled(ids, id)) == if id in ids then Elems(ids) - {id} else Elems(ids) + {id}
  {
  }

  /** Toggling keeps a duplicate-free list duplicate-free, so its length changes by exactly
      one and always equals the number of distinct ids. */
  lemma ToggleNoDuplicates(ids: seq<RuleId>, id: RuleId)
    requires NoDuplicates(ids)
    ensures NoDuplicates(Toggled(ids, id))
    ensures |Toggled(ids, id)| == if id in ids then |ids| - 1 else |ids| + 1
    ensures |Elems(Toggled(ids, id))| == |Toggled(ids, id)|
  {
    if id in ids {
      WithoutNoDuplicates(ids, id);
      NoDuplicatesCount(ids, id);
    } else {
      var r := ids + [id];
      forall i, j | 0 <= i < j < |r| ensures r[i] != r[j] {
        if j == |ids| {
          assert r[i] == ids[i];
        }
      }
    }
    NoDuplicatesCardinality(Toggled(ids, id));
  }
}
