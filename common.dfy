/** Small helpers shared by the modules of this model: an optional value, a
    result carrying an error message, and the searches on sequences that the
    JavaScript and C++ sources perform with `indexOf`, `find`, `startsWith`
    and `replace`. */
module Common {

  datatype Option<+T> = None | Some(value: T)

  /** An operation that either succeeds or throws an error with a message. */
  datatype Result<+T> = Ok(value: T) | Err(msg: string)

  /** 2 to the power `n` (`Math.pow(2, n)`, or a shift by `n` bits). */
  function Pow2(n: nat): (r: nat)
    ensures r >= 1
  {
    if n == 0 then 1 else 2 * Pow2(n - 1)
  }

  predicate StartsWith<T(==)>(s: seq<T>, prefix: seq<T>)
  {
    |prefix| <= |s| && s[..|prefix|] == prefix
  }

  predicate EndsWith<T(==)>(s: seq<T>, suffix: seq<T>)
  {
    |suffix| <= |s| && s[|s| - |suffix|..] == suffix
  }

  /** The first position at or after `from` that holds `x` (`indexOf(x, from)`). */
  function Find<T(==)>(s: seq<T>, x: T, from: nat): (r: Option<nat>)
    ensures r.Some? ==> from <= r.value < |s| && s[r.value] == x
    ensures r.Some? ==> forall j :: from <= j < r.value ==> s[j] != x
    ensures r.None? ==> forall j :: from <= j < |s| ==> s[j] != x
    decreases |s| - from
  {
    if from >= |s| then None
    else if s[from] == x then Some(from)
    else Find(s, x, from + 1)
  }

  /** Does `pat` occur in `s` starting at position `i`? */
  predicate OccursAt<T(==)>(s: seq<T>, pat: seq<T>, i: nat)
  {
    i + |pat| <= |s| && s[i..i + |pat|] == pat
  }

  /** The first position at or after `from` where `pat` occurs in `s`. */
  function FindSub<T(==)>(s: seq<T>, pat: seq<T>, from: nat): (r: Option<nat>)
    ensures r.Some? ==> from <= r.value && OccursAt(s, pat, r.value)
    ensures r.Some? ==> forall j :: from <= j < r.value ==> !OccursAt(s, pat, j)
    ensures r.None? ==> forall j :: from <= j ==> !OccursAt(s, pat, j)
    decreases |s| - from
  {
    if from + |pat| > |s| then None
    else if s[from..from + |pat|] == pat then Some(from)
    else FindSub(s, pat, from + 1)
  }

  /** JavaScript's `s.replace(pat, by)` with a string pattern: only the first
      occurrence is replaced, and `s` is returned unchanged when there is none. */
  function ReplaceFirst<T(==)>(s: seq<T>, pat: seq<T>, repl: seq<T>): (r: seq<T>)
  {
    match FindSub(s, pat, 0)
    case None => s
    case Some(i) => s[..i] + repl + s[i + |pat|..]
  }

  /** A pattern at the front of `s` is its first occurrence, so `replace`
      strips exactly that prefix. */
  lemma ReplaceFirstAtFront<T>(s: seq<T>, pat: seq<T>, repl: seq<T>)
    requires StartsWith(s, pat)
    ensures ReplaceFirst(s, pat, repl) == repl + s[|pat|..]
  {
    assert OccursAt(s, pat, 0);
    assert FindSub(s, pat, 0) == Some(0);
  }

  /** The first two parts of `s.split(sep)`: the text before the first `sep`,
      and the text between it and the next `sep`, which is None (JavaScript's
      `undefined`) when `s` holds no `sep`. */
  function SplitTwo<T(==)>(s: seq<T>, sep: T): (seq<T>, Option<seq<T>>)
  {
    match Find(s, sep, 0)
    case None => (s, None)
    case Some(i) =>
      var tail := s[i + 1..];
      match Find(tail, sep, 0)
      case None => (s[..i], Some(tail))
      case Some(j) => (s[..i], Some(tail[..j]))
  }

  /** Joining two parts free of the separator and splitting again gives them
      back. */
  lemma SplitTwoRoundTrip<T>(a: seq<T>, b: seq<T>, sep: T)
    requires sep !in a && sep !in b
    ensures SplitTwo(a + [sep] + b, sep) == (a, Some(b))
  {
    var s := a + [sep] + b;
    assert s[|a|] == sep;
    assert forall k :: 0 <= k < |a| ==> s[k] == a[k];
    assert Find(s, sep, 0) == Some(|a|);
    assert s[..|a|] == a;
    assert s[|a| + 1..] == b;
  }
}
