/** Shared vocabulary: an option type, order-preserving selection (what
    `Array.prototype.filter` and an SQL `WHERE` do to a table), reversal (an
    `ORDER BY created_at DESC` over a table kept in insertion order), first-match
    lookup, and the few JavaScript string operations the system relies on. */
module Common {

  datatype Option<T> = None | Some(value: T)

  /** What a client HTTP call gave: the response body, or the error it threw. */
  datatype ApiResult<T> = Success(data: T) | Failure(error: string)

  /** A client read that catches the error and answers `fallback` instead
      (`[]`, `null` or `false`). */
  function DataOr<T>(r: ApiResult<T>, fallback: T): (v: T)
    ensures r.Success? ==> v == r.data
    ensures r.Failure? ==> v == fallback
  {
    if r.Success? then r.data else fallback
  }

  /** JavaScript truthiness of an optional string: present and not empty. */
  predicate Truthy(s: Option<string>) {
    s.Some? && s.value != ""
  }

  /** `field || null` */
  function NullIfEmpty(field: Option<string>): (r: Option<string>)
    ensures r.Some? <==> Truthy(field)
    ensures r.Some? ==> r == field
  {
    if Truthy(field) then field else None
  }

  // ---------------------------------------------------------------------------
  // Selection, reversal, lookup
  // ---------------------------------------------------------------------------

  /** The elements of `s` that satisfy `p`, in their original order. */
  function Select<T(==,!new)>(s: seq<T>, p: T -> bool): (r: seq<T>)
    ensures |r| <= |s|
    ensures forall x :: x in r <==> x in s && p(x)
  {
    if s == [] then []
    else if p(s[0]) then [s[0]] + Select(s[1..], p)
    else Select(s[1..], p)
  }

  /** `r` can be obtained from `s` by deleting elements (greedy matching). */
  predicate SubseqOf<T(==,!new)>(r: seq<T>, s: seq<T>)
    decreases |s|
  {
    if r == [] then true
    else if s == [] then false
    else if r[0] == s[0] then SubseqOf(r[1..], s[1..])
    else SubseqOf(r, s[1..])
  }

  lemma {:induction false} SelectIsSubsequence<T(!new)>(s: seq<T>, p: T -> bool)
    ensures SubseqOf(Select(s, p), s)
  {
    if s != [] {
      SelectIsSubsequence(s[1..], p);
      var r := Select(s, p);
      if p(s[0]) {
        assert r == [s[0]] + Select(s[1..], p);
        assert r[1..] == Select(s[1..], p);
      } else {
        assert r == Select(s[1..], p);
        if r != [] {
          assert r[0] in r;
          assert r[0] != s[0];
        }
      }
    }
  }

  /** Two positions of a subsequence come from two distinct positions, in the
      same order, of the sequence it was taken from. */
  lemma {:induction false} SubseqIndices<T(!new)>(r: seq<T>, s: seq<T>, i: nat, j: nat)
    requires SubseqOf(r, s) && i < j < |r|
    ensures exists a, b :: 0 <= a < b < |s| && s[a] == r[i] && s[b] == r[j]
    decreases |s|
  {
    if r[0] == s[0] {
      if i == 0 {
        SubseqMember(r[1..], s[1..], j - 1);
        var b :| 0 <= b < |s[1..]| && s[1..][b] == r[1..][j - 1];
        assert s[b + 1] == r[j];
      } else {
        SubseqIndices(r[1..], s[1..], i - 1, j - 1);
        var a, b :| 0 <= a < b < |s[1..]| && s[1..][a] == r[1..][i - 1] && s[1..][b] == r[1..][j - 1];
        assert s[a + 1] == r[i] && s[b + 1] == r[j];
      }
    } else {
      SubseqIndices(r, s[1..], i, j);
      var a, b :| 0 <= a < b < |s[1..]| && s[1..][a] == r[i] && s[1..][b] == r[j];
      assert s[a + 1] == r[i] && s[b + 1] == r[j];
    }
  }

  lemma {:induction false} SubseqMember<T(!new)>(r: seq<T>, s: seq<T>, i: nat)
    requires SubseqOf(r, s) && i < |r|
    ensures exists b :: 0 <= b < |s| && s[b] == r[i]
    decreases |s|
  {
    if r[0] == s[0] {
      if i > 0 {
        SubseqMember(r[1..], s[1..], i - 1);
        var b :| 0 <= b < |s[1..]| && s[1..][b] == r[1..][i - 1];
        assert s[b + 1] == r[i];
      }
    } else {
      SubseqMember(r, s[1..], i);
      var b :| 0 <= b < |s[1..]| && s[1..][b] == r[i];
      assert s[b + 1] == r[i];
    }
  }

  /** Selecting with a predicate that every element satisfies keeps everything. */
  lemma {:induction false} SelectAll<T(!new)>(s: seq<T>, p: T -> bool)
    requires forall k :: 0 <= k < |s| ==> p(s[k])
    ensures Select(s, p) == s
  {
    if s != [] {
      assert p(s[0]);
      SelectAll(s[1..], p);
      assert [s[0]] + s[1..] == s;
    }
  }

  /** Selection distributes over appending one element. */
  lemma {:induction false} SelectAppend<T(!new)>(s: seq<T>, x: T, p: T -> bool)
    ensures Select(s + [x], p) == Select(s, p) + (if p(x) then [x] else [])
  {
    if s == [] {
      assert [] + [x] == [x];
      assert [x][1..] == [];
    } else {
      assert (s + [x])[0] == s[0];
      assert (s + [x])[1..] == s[1..] + [x];
      SelectAppend(s[1..], x, p);
    }
  }

  /** Predicates that agree on every element of `s` select the same elements. */
  lemma {:induction false} SelectCongruent<T(!new)>(s: seq<T>, p: T -> bool, q: T -> bool)
    requires forall k :: 0 <= k < |s| ==> p(s[k]) == q(s[k])
    ensures Select(s, p) == Select(s, q)
  {
    if s != [] {
      assert p(s[0]) == q(s[0]);
      SelectCongruent(s[1..], p, q);
    }
  }

  /** The number of elements satisfying `p`: an SQL `COUNT(*) ... WHERE`. */
  function CountWhere<T>(s: seq<T>, p: T -> bool): (n: nat)
    ensures n <= |s|
  {
    if s == [] then 0 else (if p(s[0]) then 1 else 0) + CountWhere(s[1..], p)
  }

  /** The positions of `s` whose element satisfies `p`. */
  function MatchingIndices<T>(s: seq<T>, p: T -> bool): set<nat> {
    set k: nat | k < |s| && p(s[k])
  }

  /** Appending one element adds one to the count exactly when it satisfies `p`. */
  lemma {:induction false} CountWhereAppend<T>(s: seq<T>, x: T, p: T -> bool)
    ensures CountWhere(s + [x], p) == CountWhere(s, p) + (if p(x) then 1 else 0)
  {
    if s == [] {
      assert [] + [x] == [x];
      assert [x][1..] == [];
    } else {
      assert (s + [x])[0] == s[0];
      assert (s + [x])[1..] == s[1..] + [x];
      CountWhereAppend(s[1..], x, p);
    }
  }

  /** The count is the number of matching positions. */
  lemma {:induction false} CountWhereCountsIndices<T>(s: seq<T>, p: T -> bool)
    ensures CountWhere(s, p) == |MatchingIndices(s, p)|
    decreases |s|
  {
    if s == [] {
      assert MatchingIndices(s, p) == {};
    } else {
      var init, x := s[..|s| - 1], s[|s| - 1];
      assert s == init + [x];
      CountWhereAppend(init, x, p);
      CountWhereCountsIndices(init, p);
      var before := MatchingIndices(init, p);
      assert |init| !in before;
      assert MatchingIndices(s, p) == before + (if p(x) then {|init|} else {}) by {
        forall k: nat ensures k in MatchingIndices(s, p) <==> k in before + (if p(x) then {|init|} else {}) {
          if k < |init| {
            assert s[k] == init[k];
          }
        }
      }
    }
  }

  /** Everything matches exactly when the count is the length; nothing matches
      exactly when it is zero. */
  lemma {:induction false} CountWhereExtremes<T>(s: seq<T>, p: T -> bool)
    ensures CountWhere(s, p) == |s| <==> forall k :: 0 <= k < |s| ==> p(s[k])
    ensures CountWhere(s, p) == 0 <==> forall k :: 0 <= k < |s| ==> !p(s[k])
  {
    if s != [] {
      var tail := s[1..];
      CountWhereExtremes(tail, p);
      assert forall k :: 0 < k < |s| ==> s[k] == tail[k - 1];
    }
  }

  /** Selecting keeps exactly as many elements as satisfy the predicate. */
  lemma {:induction false} SelectCount<T(!new)>(s: seq<T>, p: T -> bool)
    ensures |Select(s, p)| == CountWhere(s, p)
  {
    if s != [] {
      SelectCount(s[1..], p);
    }
  }

  /** Selection distributes over concatenation. */
  lemma {:induction false} SelectConcat<T(!new)>(a: seq<T>, b: seq<T>, p: T -> bool)
    ensures Select(a + b, p) == Select(a, p) + Select(b, p)
  {
    if a == [] {
      assert [] + b == b;
    } else {
      assert (a + b)[0] == a[0];
      assert (a + b)[1..] == a[1..] + b;
      SelectConcat(a[1..], b, p);
    }
  }

  function Reverse<T>(s: seq<T>): (r: seq<T>)
    ensures |r| == |s|
    ensures forall i :: 0 <= i < |s| ==> r[i] == s[|s| - 1 - i]
  {
    if s == [] then [] else Reverse(s[1..]) + [s[0]]
  }

  lemma ReverseMembers<T(!new)>(s: seq<T>, x: T)
    ensures x in Reverse(s) <==> x in s
  {
    var r := Reverse(s);
    if x in s {
      var i :| 0 <= i < |s| && s[i] == x;
      assert r[|s| - 1 - i] == x;
    }
  }

  /** Strictly increasing in `key` from front to back. */
  predicate Ascending<T>(s: seq<T>, key: T -> int) {
    forall i, j :: 0 <= i < j < |s| ==> key(s[i]) < key(s[j])
  }

  /** Strictly decreasing in `key` from front to back. */
  predicate Descending<T>(s: seq<T>, key: T -> int) {
    forall i, j :: 0 <= i < j < |s| ==> key(s[i]) > key(s[j])
  }

  lemma {:induction false} SelectKeepsAscending<T(!new)>(s: seq<T>, p: T -> bool, key: T -> int)
    requires Ascending(s, key)
    ensures Ascending(Select(s, p), key)
  {
    if s != [] {
      var tail := s[1..];
      assert Ascending(tail, key) by {
        forall i, j | 0 <= i < j < |tail| ensures key(tail[i]) < key(tail[j]) {
          assert tail[i] == s[i + 1] && tail[j] == s[j + 1];
        }
      }
      SelectKeepsAscending(tail, p, key);
      var rest := Select(tail, p);
      if p(s[0]) {
        var r := [s[0]] + rest;
        forall i, j | 0 <= i < j < |r| ensures key(r[i]) < key(r[j]) {
          if i == 0 {
            assert r[j] == rest[j - 1];
            assert rest[j - 1] in tail;
            var m :| 0 <= m < |tail| && tail[m] == rest[j - 1];
            assert s[m + 1] == r[j];
          } else {
            assert r[i] == rest[i - 1] && r[j] == rest[j - 1];
          }
        }
      }
    }
  }

  lemma ReverseAscending<T>(s: seq<T>, key: T -> int)
    requires Ascending(s, key)
    ensures Descending(Reverse(s), key)
  {
    var r := Reverse(s);
    forall i, j | 0 <= i < j < |r| ensures key(r[i]) > key(r[j]) {
      assert r[i] == s[|s| - 1 - i] && r[j] == s[|s| - 1 - j];
    }
  }

  /** The rows of a table kept in insertion order that satisfy `p`, newest first. */
  function NewestFirst<T(==,!new)>(s: seq<T>, p: T -> bool): (r: seq<T>)
    ensures forall x :: x in r <==> x in s && p(x)
  {
    var selected := Select(s, p);
    assert forall x :: x in Reverse(selected) <==> x in selected by {
      forall x { ReverseMembers(selected, x); }
    }
    Reverse(selected)
  }

  /** Over a table kept in creation order, the selection comes out newest first. */
  lemma NewestFirstDescending<T(!new)>(s: seq<T>, p: T -> bool, key: T -> int)
    requires Ascending(s, key)
    ensures Descending(NewestFirst(s, p), key)
  {
    SelectKeepsAscending(s, p, key);
    ReverseAscending(Select(s, p), key);
  }

  /** Index of the first element satisfying `p`, searching from `from`. */
  function FirstFrom<T>(s: seq<T>, p: T -> bool, from: nat): (r: Option<nat>)
    requires from <= |s|
    decreases |s| - from
    ensures r.Some? ==> from <= r.value < |s| && p(s[r.value])
    ensures r.Some? ==> forall k :: from <= k < r.value ==> !p(s[k])
    ensures r.None? ==> forall k :: from <= k < |s| ==> !p(s[k])
  {
    if from == |s| then None
    else if p(s[from]) then Some(from)
    else FirstFrom(s, p, from + 1)
  }

  /** Index of the first element satisfying `p` (an SQL `rows[0]`). */
  function First<T>(s: seq<T>, p: T -> bool): (r: Option<nat>)
    ensures r.Some? ==> r.value < |s| && p(s[r.value]) && forall k :: 0 <= k < r.value ==> !p(s[k])
    ensures r.None? <==> forall k :: 0 <= k < |s| ==> !p(s[k])
  {
    FirstFrom(s, p, 0)
  }

  // ---------------------------------------------------------------------------
  // Strings
  // ---------------------------------------------------------------------------

  predicate OccursAt(s: string, pat: string, i: nat) {
    i + |pat| <= |s| && s[i..i + |pat|] == pat
  }

  /** `s.indexOf(pat, from)`, as an option. */
  function IndexOf(s: string, pat: string, from: nat): (r: Option<nat>)
    decreases |s| - from
    ensures r.Some? ==> from <= r.value && OccursAt(s, pat, r.value)
    ensures r.Some? ==> forall j :: from <= j < r.value ==> !OccursAt(s, pat, j)
    ensures r.None? ==> forall j :: from <= j ==> !OccursAt(s, pat, j)
  {
    if from + |pat| > |s| then None
    else if s[from..from + |pat|] == pat then Some(from)
    else IndexOf(s, pat, from + 1)
  }

  /** `s.includes(pat)`. */
  function Contains(s: string, pat: string): (b: bool)
    ensures b <==> exists j :: OccursAt(s, pat, j)
  {
    IndexOf(s, pat, 0).Some?
  }

  /** `s.replace(pat, rep)` with a string pattern: only the FIRST occurrence
      is replaced, wherever it is, and nothing happens when there is none. */
  function ReplaceFirst(s: string, pat: string, rep: string): (r: string)
    ensures (forall j: nat :: !OccursAt(s, pat, j)) ==> r == s
    ensures forall i: nat :: OccursAt(s, pat, i) && (forall j: nat :: j < i ==> !OccursAt(s, pat, j)) ==>
              r == s[..i] + rep + s[i + |pat|..]
  {
    match IndexOf(s, pat, 0)
    case None => s
    case Some(i) => s[..i] + rep + s[i + |pat|..]
  }

  function LowerChar(c: char): (d: char)
  {
    if 'A' <= c <= 'Z' then (c as int + 32) as char else c
  }

  /** `s.toLowerCase()` restricted to ASCII letters. */
  function Lower(s: string): (r: string)
    ensures |r| == |s|
    ensures forall i :: 0 <= i < |s| ==> r[i] == LowerChar(s[i])
    ensures forall i :: 0 <= i < |r| ==> !('A' <= r[i] <= 'Z')
  {
    seq(|s|, i requires 0 <= i < |s| => LowerChar(s[i]))
  }
}
