/** Values every service of the model shares: failures, booking statuses and filters,
    nullable-text rules, ASCII case folding and substring search. */
module Common {

  datatype Option<+T> = None | Some(value: T)

  /** Why `timeChecker` rejected a booking window; one reason per message it throws. */
  datatype TimeFault = MissingBound | StartEqualsEnd | StartInPast | StartAfterEnd

  /** One constructor per exception class the services throw. */
  datatype Error =
    | DuplicateEmailException
    | EmailException
    | UserNotFoundException
    | ItemNotFoundException
    | ValidationException
    | ItemNotAvailable
    | TimeException(fault: TimeFault)
    | BookingException
    | BookingNotFoundException
    | StateException
    | CommentException
    | UserException
    | ItemRequestException
    | IndexOutOfBoundsException  // raised by java.util.List.get, not by the services themselves

  /** A service call either returns a value or throws one of the exceptions above. */
  datatype Result<+T> = Ok(value: T) | Err(error: Error)

  /** Booking status; no operation produces CANCELED. */
  datatype Status = WAITING | APPROVED | REJECTED | CANCELED

  /** The state filter of the booking list queries. */
  datatype State = ALL | CURRENT | PAST | FUTURE | WAITING | REJECTED

  /** The constant name `State.valueOf` accepts for each filter. */
  function StateName(st: State): string
  {
    match st
    case ALL => "ALL"
    case CURRENT => "CURRENT"
    case PAST => "PAST"
    case FUTURE => "FUTURE"
    case WAITING => "WAITING"
    case REJECTED => "REJECTED"
  }

  /** `State.valueOf`: the filter whose constant name is exactly `s`; None where Java throws
      IllegalArgumentException (any other text, the empty string included). */
  function ParseState(s: string): (r: Option<State>)
    ensures r.Some? ==> StateName(r.value) == s
    ensures r.None? ==> forall st: State :: StateName(st) != s
  {
    if s == "ALL" then Some(State.ALL)
    else if s == "CURRENT" then Some(State.CURRENT)
    else if s == "PAST" then Some(State.PAST)
    else if s == "FUTURE" then Some(State.FUTURE)
    else if s == "WAITING" then Some(State.WAITING)
    else if s == "REJECTED" then Some(State.REJECTED)
    else None
  }

  /** Every filter name parses back to its filter. */
  lemma ParseStateName(st: State)
    ensures ParseState(StateName(st)) == Some(st)
  {
  }

  /** A nullable string that is null or has no characters. */
  predicate Blank(s: Option<string>)
  {
    s.None? || s.value == ""
  }

  /** The value of a nullable field after a partial update: the old value when the new one
      is null or empty. */
  function KeepUnlessBlank(update: Option<string>, current: string): (r: string)
    ensures Blank(update) ==> r == current
    ensures !Blank(update) ==> r == update.value && r != ""
  {
    if Blank(update) then current else update.value
  }

  /** ASCII lower-casing of one character. */
  function LowerChar(c: char): char
  {
    if 'A' <= c <= 'Z' then (c as int + 32) as char else c
  }

  /** ASCII upper-casing of one character. */
  function UpperChar(c: char): char
  {
    if 'a' <= c <= 'z' then (c as int - 32) as char else c
  }

  function Lower(s: string): (r: string)
    ensures |r| == |s| && forall i :: 0 <= i < |s| ==> r[i] == LowerChar(s[i])
  {
    seq(|s|, i requires 0 <= i < |s| => LowerChar(s[i]))
  }

  function Upper(s: string): (r: string)
    ensures |r| == |s| && forall i :: 0 <= i < |s| ==> r[i] == UpperChar(s[i])
  {
    seq(|s|, i requires 0 <= i < |s| => UpperChar(s[i]))
  }

  /** `sub` occurs in `s` starting at index `i`. */
  ghost predicate OccursAt(s: string, sub: string, i: int)
  {
    0 <= i && i + |sub| <= |s| && s[i..i + |sub|] == sub
  }

  /** `String.contains`: `sub` occurs somewhere in `s`. */
  function Contains(s: string, sub: string): (r: bool)
    ensures r <==> exists i :: OccursAt(s, sub, i)
    decreases |s|
  {
    if |sub| > |s| then false
    else if s[..|sub|] == sub then (assert OccursAt(s, sub, 0); true)
    else
      var rest := Contains(s[1..], sub);
      assert rest ==> exists i :: OccursAt(s, sub, i) by {
        if rest {
          var j :| OccursAt(s[1..], sub, j);
          assert s[1..][j..j + |sub|] == s[j + 1..j + 1 + |sub|];
          assert OccursAt(s, sub, j + 1);
        }
      }
      assert (exists i :: OccursAt(s, sub, i)) ==> rest by {
        if exists i :: OccursAt(s, sub, i) {
          var i :| OccursAt(s, sub, i);
          assert i != 0;
          assert s[1..][i - 1..i - 1 + |sub|] == s[i..i + |sub|];
          assert OccursAt(s[1..], sub, i - 1);
        }
      }
      rest
  }
}

/** Generic list helpers standing in for the Java stream operations and the repository
    queries: filtering in list order, ordering by a key, and a page window. */
module Lists {

  /** Elements of `s` satisfying `p`, in their order (`stream().filter(...)`). */
  function Filter<T(!new)>(s: seq<T>, p: T -> bool): (r: seq<T>)
    ensures |r| <= |s|
    ensures forall x :: x in r <==> x in s && p(x)
    ensures forall k :: 0 <= k < |r| ==> p(r[k])
  {
    if s == [] then [] else if p(s[0]) then [s[0]] + Filter(s[1..], p) else Filter(s[1..], p)
  }

  /** Filtering a list extended by one element filters the prefix and then looks at the
      new element; this is what an appending loop computes step by step. */
  lemma {:induction false} FilterSnoc<T(!new)>(s: seq<T>, x: T, p: T -> bool)
    ensures Filter(s + [x], p) == Filter(s, p) + (if p(x) then [x] else [])
  {
    if s == [] {
      assert [x][1..] == [];
    } else {
      assert (s + [x])[1..] == s[1..] + [x];
      FilterSnoc(s[1..], x, p);
    }
  }

  /** Filtering keeps every occurrence of a selected element and none of the others. */
  lemma {:induction false} FilterCount<T(!new)>(s: seq<T>, p: T -> bool, x: T)
    ensures multiset(Filter(s, p))[x] == if p(x) then multiset(s)[x] else 0
  {
    if s != [] {
      assert s == [s[0]] + s[1..];
      FilterCount(s[1..], p, x);
    }
  }

  /** A list without repeated elements holds each value at most once. */
  lemma {:induction false} DistinctAtMostOnce<T>(s: seq<T>, x: T)
    requires forall i, j :: 0 <= i < j < |s| ==> s[i] != s[j]
    ensures multiset(s)[x] <= 1
  {
    if s != [] {
      assert s == [s[0]] + s[1..];
      DistinctAtMostOnce(s[1..], x);
      if s[0] == x {
        assert x !in s[1..];
      }
    }
  }

  /** `r` can be obtained from `s` by deleting elements (order kept). */
  ghost predicate Subsequence<T>(r: seq<T>, s: seq<T>)
    decreases |s|
  {
    if r == [] then true
    else if s == [] then false
    else if r[0] == s[0] then Subsequence(r[1..], s[1..])
    else Subsequence(r, s[1..])
  }

  lemma {:induction false} FilterIsSubsequence<T(!new)>(s: seq<T>, p: T -> bool)
    ensures Subsequence(Filter(s, p), s)
    decreases |s|
  {
    if s != [] {
      FilterIsSubsequence(s[1..], p);
      if !p(s[0]) {
        SubsequenceOfTail(Filter(s[1..], p), s);
      }
    }
  }

  /** A subsequence of the tail is a subsequence of the whole list. */
  lemma {:induction false} SubsequenceOfTail<T>(r: seq<T>, s: seq<T>)
    requires s != []
    requires Subsequence(r, s[1..])
    ensures Subsequence(r, s)
    decreases |s|, 0
  {
    if r != [] && r[0] == s[0] {
      SubsequenceDropHead(r, s[1..]);
    }
  }

  /** Dropping the first element of a non-empty subsequence keeps it a subsequence. */
  lemma {:induction false} SubsequenceDropHead<T>(r: seq<T>, s: seq<T>)
    requires r != [] && Subsequence(r, s)
    ensures Subsequence(r[1..], s)
    decreases |s|, 1
  {
    if r[1..] != [] {
      if r[0] == s[0] {
        SubsequenceOfTail(r[1..], s);
      } else {
        SubsequenceDropHead(r, s[1..]);
        SubsequenceOfTail(r[1..], s);
      }
    }
  }

  /** `key` does not increase along `s` (ORDER BY key DESC). */
  predicate SortedDesc<T>(s: seq<T>, key: T -> int)
  {
    forall i, j :: 0 <= i < j < |s| ==> key(s[i]) >= key(s[j])
  }

  function InsertDesc<T>(x: T, s: seq<T>, key: T -> int): (r: seq<T>)
    requires SortedDesc(s, key)
    ensures SortedDesc(r, key)
    ensures multiset(r) == multiset(s) + multiset{x}
  {
    if s == [] then [x]
    else
      SortedTail(s, key);
      if key(x) >= key(s[0]) then
        ConsSorted(x, s, key);
        [x] + s
      else
        var rest := InsertDesc(x, s[1..], key);
        assert s == [s[0]] + s[1..];
        assert multiset(rest) == multiset(s[1..] + [x]);
        BoundedByPermutation(rest, s[1..] + [x], key, key(s[0]));
        ConsSorted(s[0], rest, key);
        [s[0]] + rest
  }

  /** The tail of a sorted list is sorted, and its head has the largest key. */
  lemma SortedTail<T>(s: seq<T>, key: T -> int)
    requires s != [] && SortedDesc(s, key)
    ensures SortedDesc(s[1..], key)
    ensures forall k :: 0 <= k < |s| ==> key(s[k]) <= key(s[0])
  {
    forall i, j | 0 <= i < j < |s[1..]|
      ensures key(s[1..][i]) >= key(s[1..][j])
    {
      assert s[1..][i] == s[i + 1] && s[1..][j] == s[j + 1];
    }
    forall k | 0 < k < |s|
      ensures key(s[k]) <= key(s[0])
    {
    }
  }

  /** Putting in front an element whose key bounds all the others keeps a list sorted. */
  lemma ConsSorted<T>(h: T, s: seq<T>, key: T -> int)
    requires SortedDesc(s, key)
    requires forall k :: 0 <= k < |s| ==> key(s[k]) <= key(h)
    ensures SortedDesc([h] + s, key)
  {
    forall i, j | 0 <= i < j < |[h] + s|
      ensures key(([h] + s)[i]) >= key(([h] + s)[j])
    {
      assert ([h] + s)[j] == s[j - 1];
      if i > 0 {
        assert ([h] + s)[i] == s[i - 1];
      }
    }
  }

  /** A permutation of a list whose keys are all at most `bound` has the same bound. */
  lemma BoundedByPermutation<T>(r: seq<T>, s: seq<T>, key: T -> int, bound: int)
    requires multiset(r) == multiset(s)
    requires forall k :: 0 <= k < |s| ==> key(s[k]) <= bound
    ensures forall k :: 0 <= k < |r| ==> key(r[k]) <= bound
  {
    forall k | 0 <= k < |r|
      ensures key(r[k]) <= bound
    {
      assert r[k] in multiset(s) by {
        assert r[k] in multiset(r);
      }
      var j :| 0 <= j < |s| && s[j] == r[k];
    }
  }

  /** The list ordered by `key`, largest first; a permutation of the input. */
  function SortDesc<T>(s: seq<T>, key: T -> int): (r: seq<T>)
    ensures SortedDesc(r, key)
    ensures multiset(r) == multiset(s)
    ensures |r| == |s|
  {
    if s == [] then []
    else
      assert s == [s[0]] + s[1..];
      InsertDesc(s[0], SortDesc(s[1..], key), key)
  }

  /** The page of `size` elements starting at `offset` (LIMIT/OFFSET of a Spring page). */
  function Window<T>(s: seq<T>, offset: nat, size: nat): (r: seq<T>)
    ensures |r| == if offset >= |s| then 0 else if |s| - offset < size then |s| - offset else size
    ensures forall k :: 0 <= k < |r| ==> r[k] == s[offset + k]
  {
    if offset >= |s| then []
    else if |s| - offset < size then s[offset..]
    else s[offset..offset + size]
  }
}
