/** Vocabulary shared by every table of the store: optional column values,
    the outcome of a controller action, and order-keeping filters over rows. */
module Common {

  /** A nullable column or an absent request field. */
  datatype Option<+T> = None | Some(value: T) {

    /** The value, or `default` when absent (PHP's `??`). */
    function GetOr(default: T): T
    {
      match this
      case Some(v) => v
      case None => default
    }
  }

  /** The characters PHP's `trim` strips by default. */
  const TRIMMED: set<char> := {' ', '\t', '\n', '\r', '\0', '\U{000B}'}

  /** A string that is empty once trimmed. */
  predicate Blank(s: string)
  {
    s == [] || (s[0] in TRIMMED && Blank(s[1..]))
  }

  /** A string is blank exactly when every one of its characters is one that
      `trim` strips. */
  lemma {:induction false} BlankIffAllTrimmed(s: string)
    ensures Blank(s) <==> forall i :: 0 <= i < |s| ==> s[i] in TRIMMED
  {
    if s != [] {
      BlankIffAllTrimmed(s[1..]);
      assert forall i :: 1 <= i < |s| ==> s[i] == s[1..][i - 1];
    }
  }

  /** A string field that Laravel's `required` rules (`required_if`,
      `required_without`) count as given: present and not blank. */
  predicate Given(field: Option<string>)
  {
    field.Some? && !Blank(field.value)
  }

  /** What a controller action answers, named after the HTTP status it sends. */
  datatype Code =
    | Ok            // 200
    | Created       // 201
    | Unauthorized  // 403
    | NotFound      // 404: route model binding found no row for the id
    | Gone          // 410
    | Invalid       // 422: the request failed validation
    | ServerError   // 500: a method was called on a missing related row

  /** The elements of `s` that satisfy `p`, in their original order
      (a `where` clause over a table). */
  function Filter<T(!new)>(p: T -> bool, s: seq<T>): (r: seq<T>)
    ensures |r| <= |s|
    ensures forall x :: x in r <==> x in s && p(x)
  {
    if s == [] then []
    else
      assert s == [s[0]] + s[1..];
      (if p(s[0]) then [s[0]] else []) + Filter(p, s[1..])
  }

  /** A filter keeps every passing element as often as it occurs, and drops
      every other one entirely. */
  lemma {:induction false} FilterCount<T(!new)>(p: T -> bool, s: seq<T>, x: T)
    ensures multiset(Filter(p, s))[x] == if p(x) then multiset(s)[x] else 0
  {
    if s != [] {
      assert s == [s[0]] + s[1..];
      FilterCount(p, s[1..], x);
    }
  }

  lemma {:induction false} FilterAppend<T(!new)>(p: T -> bool, a: seq<T>, b: seq<T>)
    ensures Filter(p, a + b) == Filter(p, a) + Filter(p, b)
  {
    if a == [] {
      assert a + b == b;
    } else {
      assert (a + b)[1..] == a[1..] + b;
      FilterAppend(p, a[1..], b);
    }
  }

  lemma FilterSingleton<T(!new)>(p: T -> bool, x: T)
    ensures Filter(p, [x]) == if p(x) then [x] else []
  {
    assert [x][1..] == [];
  }

  /** A filter that every element passes keeps the whole sequence. */
  lemma {:induction false} FilterKeepsAll<T(!new)>(p: T -> bool, s: seq<T>)
    requires forall x :: x in s ==> p(x)
    ensures Filter(p, s) == s
  {
    if s != [] {
      assert s[0] in s;
      forall x | x in s[1..] ensures p(x) {
        assert x in s;
      }
      FilterKeepsAll(p, s[1..]);
    }
  }

  /** A filter that no element passes yields nothing. */
  lemma FilterDropsAll<T(!new)>(p: T -> bool, s: seq<T>)
    requires forall x :: x in s ==> !p(x)
    ensures Filter(p, s) == []
  {
  }

  /** A relation holding between every earlier and every later element. */
  ghost predicate Pairwise<T>(rel: (T, T) -> bool, s: seq<T>)
  {
    forall i, j :: 0 <= i < j < |s| ==> rel(s[i], s[j])
  }

  /** Filtering keeps the survivors in their order, so a relation between
      earlier and later elements survives it. */
  lemma {:induction false} FilterPairwise<T(!new)>(p: T -> bool, rel: (T, T) -> bool, s: seq<T>)
    requires Pairwise(rel, s)
    ensures Pairwise(rel, Filter(p, s))
  {
    if s != [] {
      var tail := s[1..];
      assert Pairwise(rel, tail) by {
        forall i, j | 0 <= i < j < |tail| ensures rel(tail[i], tail[j]) {
          assert tail[i] == s[i + 1] && tail[j] == s[j + 1];
        }
      }
      FilterPairwise(p, rel, tail);
      var rest := Filter(p, tail);
      if p(s[0]) {
        var r := Filter(p, s);
        assert r == [s[0]] + rest;
        forall i, j | 0 <= i < j < |r| ensures rel(r[i], r[j]) {
          if i == 0 {
            assert r[j] == rest[j - 1];
            assert rest[j - 1] in tail;
            var k :| 0 <= k < |tail| && tail[k] == rest[j - 1];
            assert s[k + 1] == r[j];
          } else {
            assert r[i] == rest[i - 1] && r[j] == rest[j - 1];
          }
        }
      }
    }
  }

  /** `s` in reverse order: the last row inserted comes first
      (an `ORDER BY created_at DESC` over rows kept in insertion order). */
  function NewestFirst<T(!new)>(s: seq<T>): (r: seq<T>)
    ensures |r| == |s|
    ensures forall i :: 0 <= i < |s| ==> r[i] == s[|s| - 1 - i]
    ensures multiset(r) == multiset(s)
    ensures forall x :: x in r <==> x in s
  {
    if s == [] then []
    else
      assert s == s[..|s| - 1] + [s[|s| - 1]];
      [s[|s| - 1]] + NewestFirst(s[..|s| - 1])
  }
}
