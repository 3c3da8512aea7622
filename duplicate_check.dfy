/** The duplicate-check service: a growing record of the ids seen so far and one
    check-and-mark operation that answers whether an id is new. */
module DuplicateCheck {
  import opened IntText

  /** The one failure the service reports: `ArgumentOutOfRangeException("id")`. */
  datatype Error = ArgumentOutOfRange(paramName: string)

  datatype Result<T> = Success(value: T) | Failure(error: Error)

  const OutOfRange: Result<bool> := Failure(ArgumentOutOfRange("id"))

  /** `Enumerable.Range(1, RangeCount)` is appended to the test's ids. */
  const RangeCount: nat := 10_000_000

  // ---------------------------------------------------------------------------
  // Specification: the service as a function of the set of ids seen so far.
  // ---------------------------------------------------------------------------

  /** What one call answers when the ids in `seen` were recorded before it. */
  function Answer(seen: set<int32>, id: int32): Result<bool> {
    if id < 0 then OutOfRange else Success(id !in seen)
  }

  /** The record after one call. */
  function Mark(seen: set<int32>, id: int32): set<int32> {
    if id < 0 then seen else seen + {id}
  }

  /** The record after one call per element of `ids`, in order. */
  function MarkAll(seen: set<int32>, ids: seq<int32>): (after: set<int32>)
    ensures forall x :: x in after <==> x in seen || (0 <= x && x in ids)
  {
    if ids == [] then seen
    else
      var init := ids[..|ids| - 1];
      assert ids == init + [ids[|ids| - 1]];
      Mark(MarkAll(seen, init), ids[|ids| - 1])
  }

  /** The answers of one call per element of `ids`, in order. */
  function Answers(seen: set<int32>, ids: seq<int32>): (rs: seq<Result<bool>>)
    ensures |rs| == |ids|
  {
    if ids == [] then []
    else
      var init := ids[..|ids| - 1];
      Answers(seen, init) + [Answer(MarkAll(seen, init), ids[|ids| - 1])]
  }

  /** The i-th answer is "first time" exactly when ids[i] is neither in the initial
      record nor earlier in the stream; a negative id is always rejected. */
  lemma {:induction false} AnswerAt(seen: set<int32>, ids: seq<int32>, i: nat)
    requires i < |ids|
    ensures Answers(seen, ids)[i] ==
      if ids[i] < 0 then OutOfRange else Success(ids[i] !in seen && ids[i] !in ids[..i])
  {
    var init := ids[..|ids| - 1];
    if i < |ids| - 1 {
      AnswerAt(seen, init, i);
      assert init[..i] == ids[..i];
    } else {
      assert init == ids[..i];
    }
  }

  /** No false negatives: a later call with an id already passed never answers "first time". */
  lemma {:induction false} NoFalseNegatives(seen: set<int32>, ids: seq<int32>, i: nat, j: nat)
    requires i < j < |ids| && ids[i] == ids[j]
    ensures Answers(seen, ids)[j] == if ids[j] < 0 then OutOfRange else Success(false)
  {
    AnswerAt(seen, ids, j);
    assert ids[..j][i] == ids[j];
  }

  /** An id already recorded is answered "duplicate" however often it is passed again. */
  lemma {:induction false} SeenStaysSeen(seen: set<int32>, ids: seq<int32>, i: nat)
    requires i < |ids| && ids[i] in seen && ids[i] >= 0
    ensures Answers(seen, ids)[i] == Success(false)
  {
    AnswerAt(seen, ids, i);
  }

  /** At most one call per id answers "first time". */
  lemma {:induction false} AtMostOneFirstTime(seen: set<int32>, ids: seq<int32>, i: nat, j: nat)
    requires i < |ids| && j < |ids| && ids[i] == ids[j]
    requires Answers(seen, ids)[i] == Success(true) && Answers(seen, ids)[j] == Success(true)
    ensures i == j
  {
    if i < j {
      NoFalseNegatives(seen, ids, i, j);
    } else if j < i {
      NoFalseNegatives(seen, ids, j, i);
    }
  }

  /** At least one call answers "first time" for every valid id not recorded beforehand. */
  lemma {:induction false} SomeFirstTime(seen: set<int32>, ids: seq<int32>, x: int32)
    requires 0 <= x && x !in seen && x in ids
    ensures exists i :: 0 <= i < |ids| && ids[i] == x && Answers(seen, ids)[i] == Success(true)
  {
    var init := ids[..|ids| - 1];
    assert ids == init + [ids[|ids| - 1]];
    if x in init {
      SomeFirstTime(seen, init, x);
      var i :| 0 <= i < |init| && init[i] == x && Answers(seen, init)[i] == Success(true);
      assert Answers(seen, ids)[i] == Answers(seen, init)[i];
    } else {
      assert Answers(seen, ids)[|ids| - 1] == Success(true);
    }
  }

  /** A rejected (negative) id leaves no trace: every other call answers as if it had not been made. */
  lemma RejectedIdChangesNothing(seen: set<int32>, before: seq<int32>, neg: int32, after: seq<int32>)
    requires neg < 0
    ensures MarkAll(seen, before + [neg] + after) == MarkAll(seen, before + after)
    ensures Answers(seen, before + [neg] + after) ==
      var without := Answers(seen, before + after);
      without[..|before|] + [OutOfRange] + without[|before|..]
  {
    var ids, ids' := before + [neg] + after, before + after;
    var rs, rs' := Answers(seen, ids), Answers(seen, ids');
    var expected := rs'[..|before|] + [OutOfRange] + rs'[|before|..];
    forall k | 0 <= k < |ids| ensures rs[k] == expected[k] {
      AnswerAt(seen, ids, k);
      if k < |before| {
        AnswerAt(seen, ids', k);
        assert ids[..k] == ids'[..k];
      } else if k > |before| {
        AnswerAt(seen, ids', k - 1);
        var m := k - |before| - 1;
        assert ids[..k] == before + [neg] + after[..m];
        assert ids'[..k - 1] == before + after[..m];
      }
    }
  }

  /** The ids the test passes: `{ 1, 2, 1, 2, 3, 4, 5, 3 }` followed by 1 .. RangeCount. */
  function IdsToAdd(): (ids: seq<int32>)
    ensures |ids| == 8 + RangeCount
  {
    [1, 2, 1, 2, 3, 4, 5, 3] + seq(RangeCount, i requires 0 <= i < RangeCount => (i + 1) as int32)
  }

  /** The test's four assertions, read for calls made one after another. */
  lemma TestAssertions(seen: set<int32>)
    ensures var rs := Answers(seen, IdsToAdd());
      && !(rs[0] == Success(true) && rs[2] == Success(true))
      && !(rs[1] == Success(true) && rs[3] == Success(true))
      && !(rs[4] == Success(true) && rs[7] == Success(true))
      && (rs[13] == Success(true) <==> 6 !in seen)
  {
    var ids := IdsToAdd();
    NoFalseNegatives(seen, ids, 0, 2);
    NoFalseNegatives(seen, ids, 1, 3);
    NoFalseNegatives(seen, ids, 4, 7);
    AnswerAt(seen, ids, 13);
    assert ids[13] == 6;
    assert forall k :: 0 <= k < 13 ==> ids[k] <= 5;
  }

  // ---------------------------------------------------------------------------
  // The service object.
  // ---------------------------------------------------------------------------

  class DuplicateCheckService {
    /** The keys of the `MemoryCache` "idCache": entries are never evicted here. */
    var nonDuplicateIds: set<string>
    /** The ids whose keys the cache holds. */
    ghost var Seen: set<int32>

    ghost predicate Valid()
      reads this
    {
      && (forall id :: id in Seen ==> id >= 0)
      && nonDuplicateIds == set id | id in Seen :: ToString(id)
    }

    constructor ()
      ensures Valid() && Seen == {} && nonDuplicateIds == {}
    {
      nonDuplicateIds := {};
      Seen := {};
    }

    /** True if `id` was not seen before; a negative id is rejected and changes nothing. */
    method IsThisTheFirstTimeWeHaveSeen(id: int32) returns (r: Result<bool>)
      requires Valid()
      modifies this
      ensures Valid()
      ensures r == Answer(old(Seen), id) && Seen == Mark(old(Seen), id)
      ensures id < 0 ==> r == OutOfRange && Seen == old(Seen) && nonDuplicateIds == old(nonDuplicateIds)
      ensures id >= 0 ==> r == Success(id !in old(Seen))
      ensures id >= 0 ==> Seen == old(Seen) + {id}
      ensures id >= 0 ==> nonDuplicateIds == old(nonDuplicateIds) + {ToString(id)}
    {
      if id < 0 {
        return OutOfRange;
      }
      var key := ToString(id);
      forall x | x in Seen ensures ToString(x) == key <==> x == id {
        ToStringInjective(x, id);
      }
      var containsId := key in nonDuplicateIds;
      if !containsId {
        nonDuplicateIds := nonDuplicateIds + {key};
        Seen := Seen + {id};
      }
      return Success(!containsId);
    }

    /** The test, with its parallel loop run one call after another. xUnit gives every
        test a fresh instance, so the cache starts empty. */
    method IsThisTheFirstTimeWeHaveSeenTest() returns (resultsByIndex: seq<Result<bool>>)
      requires Valid() && Seen == {}
      modifies this
      ensures Valid() && Seen == MarkAll({}, IdsToAdd())
      ensures resultsByIndex == Answers({}, IdsToAdd())
      ensures !(resultsByIndex[0] == Success(true) && resultsByIndex[2] == Success(true))
      ensures !(resultsByIndex[1] == Success(true) && resultsByIndex[3] == Success(true))
      ensures !(resultsByIndex[4] == Success(true) && resultsByIndex[7] == Success(true))
      ensures resultsByIndex[13] == Success(true)
    {
      var idsToAdd := IdsToAdd();
      resultsByIndex := [];
      var index := 0;
      while index < |idsToAdd|
        invariant 0 <= index <= |idsToAdd|
        invariant Valid()
        invariant Seen == MarkAll({}, idsToAdd[..index])
        invariant resultsByIndex == Answers({}, idsToAdd[..index])
      {
        var result := IsThisTheFirstTimeWeHaveSeen(idsToAdd[index]);
        assert idsToAdd[..index + 1][..index] == idsToAdd[..index];
        resultsByIndex := resultsByIndex + [result];
        index := index + 1;
      }
      assert idsToAdd[..index] == idsToAdd;
      TestAssertions({});
    }
  }
}
