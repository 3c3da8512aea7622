# Duplicate-check service, modelled in Dafny

The repository has one service, `HighlyOptimizedThreadSafeDuplicateCheckService`.
Its method `IsThisTheFirstTimeWeHaveSeen(int id)` answers whether an id is new.
It keeps the ids seen so far as keys of a `MemoryCache`. The key of an id is `id.ToString()`.
A negative id is rejected with `ArgumentOutOfRangeException("id")`.
Otherwise the method asks the cache whether it holds the key, adds the key if it does not, and returns whether it was absent.
An xUnit test on the same class feeds it `{ 1, 2, 1, 2, 3, 4, 5, 3 }` followed by 1 .. 10,000,000, then asserts four facts about the answers.

The model has two modules:

- `IntText` (`int_text.dfy`): C#'s `int` as the newtype `int32`, and `ToString` as decimal text with an optional minus sign.
  It proves the digits round-trip both ways and that `ToString` is injective. So two distinct ids never share a cache key.
- `DuplicateCheck` (`duplicate_check.dfy`): the specification and the object.
  - `Answer`, `Mark`, `Answers` and `MarkAll` give the service's answers and record as functions of the ids seen before.
  - The lemmas about them state the first-occurrence rule, the lack of false negatives, exactly one "first time" per new id, and that a rejected id leaves no trace.
  - The class `DuplicateCheckService` holds the cache's key set `nonDuplicateIds: set<string>` and a ghost `Seen: set<int32>`.
    `Valid()` says the key set is exactly the `ToString` image of `Seen`.
    The check-and-mark method relates the new state to the old one. The test method runs the ids one call at a time and proves the test's assertions.

The interface comment asks for a method that is "thread safe to call".
It tolerates false positives, meaning new ids reported as duplicates, at a rate below 1%.
The code keeps an exact set, so the model has no false positives: an id is reported as a duplicate only if it really was seen.
The code calls `Contains` and then `Add` separately. That race between callers is not modelled (see "## Left out").

## Model

| member | source | states |
|---|---|---|
| `IntText.DecimalString` | RingbaTest/HighlyOptimizedThreadSafeDuplicateCheckService.cs:64 | the decimal text of a non-negative id is a non-empty digit string with no leading zero, of length 1 exactly for ids below 10 |
| `IntText.ToString` | RingbaTest/HighlyOptimizedThreadSafeDuplicateCheckService.cs:64 | `id.ToString()` starts with '-' exactly for negative ids; for a non-negative id it is canonical decimal text that reads back as the id, and for a negative id the text after '-' reads back as its magnitude |
| `IntText.ParseOfDecimalString` | RingbaTest/HighlyOptimizedThreadSafeDuplicateCheckService.cs:64 | reading back the decimal text of n gives n |
| `IntText.DecimalStringOfParse` | RingbaTest/HighlyOptimizedThreadSafeDuplicateCheckService.cs:64 | every canonical digit string is the decimal text of the number it denotes |
| `IntText.DecimalStringInjective` | RingbaTest/HighlyOptimizedThreadSafeDuplicateCheckService.cs:64 | two naturals have the same decimal text if and only if they are equal |
| `IntText.ToStringInjective` | RingbaTest/HighlyOptimizedThreadSafeDuplicateCheckService.cs:64-67 | two ints have the same cache key if and only if they are equal, so the cache never reports a false duplicate |
| `DuplicateCheck.MarkAll` | RingbaTest/HighlyOptimizedThreadSafeDuplicateCheckService.cs:57-70 | after a run of calls, the record holds exactly the ids held before plus the non-negative ids passed; it only grows, and negative ids add nothing |
| `DuplicateCheck.Answers` | RingbaTest/HighlyOptimizedThreadSafeDuplicateCheckService.cs:41-44 | a run of calls gives one answer per id passed |
| `DuplicateCheck.AnswerAt` | RingbaTest/HighlyOptimizedThreadSafeDuplicateCheckService.cs:60-69 | the i-th answer is `ArgumentOutOfRange` for a negative id; otherwise it is true exactly when the id is neither in the initial record nor earlier in the run |
| `DuplicateCheck.NoFalseNegatives` | RingbaTest/HighlyOptimizedThreadSafeDuplicateCheckService.cs:64-69 | a call with an id already passed earlier in the run answers false |
| `DuplicateCheck.SeenStaysSeen` | RingbaTest/HighlyOptimizedThreadSafeDuplicateCheckService.cs:64-69 | an id already in the record is answered false at every later call |
| `DuplicateCheck.AtMostOneFirstTime` | RingbaTest/HighlyOptimizedThreadSafeDuplicateCheckService.cs:64-69 | two calls with the same id that both answer true are the same call |
| `DuplicateCheck.SomeFirstTime` | RingbaTest/HighlyOptimizedThreadSafeDuplicateCheckService.cs:64-69 | a valid id that is not in the record and occurs in the run is answered true at some call |
| `DuplicateCheck.RejectedIdChangesNothing` | RingbaTest/HighlyOptimizedThreadSafeDuplicateCheckService.cs:60-63 | inserting a negative id into a run adds one `ArgumentOutOfRange` answer; every other answer and the final record are those of the run without it |
| `DuplicateCheck.IdsToAdd` | RingbaTest/HighlyOptimizedThreadSafeDuplicateCheckService.cs:36-38 | the test's ids are the eight listed ids followed by 10,000,000 more |
| `DuplicateCheck.TestAssertions` | RingbaTest/HighlyOptimizedThreadSafeDuplicateCheckService.cs:46-49 | on the test's ids, answers 0 and 2, 1 and 3, and 4 and 7 are never both true; answer 13 (id 6) is true exactly when 6 was not recorded before |
| `DuplicateCheck.DuplicateCheckService.constructor` | RingbaTest/HighlyOptimizedThreadSafeDuplicateCheckService.cs:30-31 | a new service starts with an empty cache |
| `DuplicateCheck.DuplicateCheckService.IsThisTheFirstTimeWeHaveSeen` | RingbaTest/HighlyOptimizedThreadSafeDuplicateCheckService.cs:57-70 | the answer is `Answer(old record, id)` and the new record is `Mark(old record, id)`, the one-call specification that the run lemmas are built from; spelled out, a negative id fails with `ArgumentOutOfRange("id")` and changes neither the cache nor the record; otherwise the answer is true exactly when the id was not yet seen, the record becomes the old one plus this id, the cache gains exactly this id's key, and the invariant holds again |
| `DuplicateCheck.DuplicateCheckService.IsThisTheFirstTimeWeHaveSeenTest` | RingbaTest/HighlyOptimizedThreadSafeDuplicateCheckService.cs:33-50 | run one call at a time on a fresh service, the test's answers are those of the specification, and its four assertions hold |

## Left out

- Concurrency: `Parallel.ForEach` and the `ConcurrentDictionary` of results are modelled as a sequential loop over the ids and a sequence of answers. Dafny's verification here is sequential.
- Thread safety is not modelled. The interface comment says no duplicate may get through and that the method must be thread safe to call. The code calls `Contains` and then `Add` separately, so two callers can both see the key absent and both return true. Only the sequential reading, `AtMostOneFirstTime` and `SomeFirstTime`, is proved.
- `MemoryCache` internals are not modelled: eviction under memory pressure, the cache name, the stored values and the default `CacheItemPolicy`. The cache is a set of keys that never loses an entry. Under real eviction a seen id could be reported as new again.
- `MemoryCache.Add` returns a bool, and the code ignores it. The model does not return it either.
- The exception is modelled as a `Failure(ArgumentOutOfRange("id"))` result. Its message text and stack unwinding are not modelled.
- `IntText.ToString` uses the invariant culture's "-" sign for negative ids. The culture's `NegativeSign` is not modelled. The service never builds a key for a negative id, so this does not affect it.
- The 1% false-positive allowance in the interface comment is not modelled. The code never returns a false positive, and the model proves it has none.
- The size and run time of the 10,000,000-element range are not modelled. The range appears only as a sequence value.
