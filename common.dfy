/** Shared value types and string helpers used by every module of the model. */
module Common {

  /** A JavaScript value that may be `null` or `undefined`. */
  datatype Option<+T> = None | Some(value: T)

  /** Row ids are positive serials, so a JavaScript truthiness test on an id
      behaves as a null test. */
  type SerialId = x: int | x > 0 witness 1

  /** The outcome of an operation that can raise an error. */
  datatype Result<+T, +E> = Ok(value: T) | Err(error: E)

  /** `s.startsWith(p)` */
  predicate StartsWith(s: string, p: string)
  {
    |p| <= |s| && s[..|p|] == p
  }

  /** `s.endsWith(suffix)` */
  predicate EndsWith(s: string, suffix: string)
  {
    |suffix| <= |s| && s[|s| - |suffix|..] == suffix
  }

  /** `s.includes(c)` for one character. */
  predicate HasChar(s: string, c: char)
  {
    exists i :: 0 <= i < |s| && s[i] == c
  }

  /** A suffix free of `c` from `i` on. */
  lemma NoCharFrom(s: string, i: nat, c: char)
    requires i <= |s| && forall k :: i <= k < |s| ==> s[k] != c
    ensures !HasChar(s[i..], c)
  {
    forall k | 0 <= k < |s[i..]|
      ensures s[i..][k] != c
    {
      assert s[i..][k] == s[i + k];
    }
  }

  /** `HasChar` is sequence membership. */
  lemma HasCharIn(s: string, c: char)
    ensures HasChar(s, c) <==> c in s
  {
  }

  /** `s.lastIndexOf(c)`: the largest index holding `c`, or -1. */
  function LastIndexOf(s: string, c: char): (r: int)
    ensures -1 <= r < |s|
    ensures r == -1 <==> !HasChar(s, c)
    ensures r >= 0 ==> s[r] == c && forall j :: r < j < |s| ==> s[j] != c
  {
    LastIndexBelow(s, c, |s|)
  }

  /** The largest index below `n` holding `c`, or -1. */
  function LastIndexBelow(s: string, c: char, n: nat): (r: int)
    requires n <= |s|
    ensures -1 <= r < n
    ensures r == -1 ==> forall j :: 0 <= j < n ==> s[j] != c
    ensures r >= 0 ==> s[r] == c && forall j :: r < j < n ==> s[j] != c
  {
    if n == 0 then -1
    else if s[n - 1] == c then n - 1
    else LastIndexBelow(s, c, n - 1)
  }

  /** `s.indexOf(c)`: the smallest index holding `c`, or -1. */
  function IndexOf(s: string, c: char): (r: int)
    ensures -1 <= r < |s|
    ensures r == -1 <==> !HasChar(s, c)
    ensures r >= 0 ==> s[r] == c && forall j :: 0 <= j < r ==> s[j] != c
  {
    IndexFrom(s, c, 0)
  }

  /** The smallest index from `i` on holding `c`, or -1. */
  function IndexFrom(s: string, c: char, i: nat): (r: int)
    requires i <= |s|
    ensures r == -1 || i <= r < |s|
    ensures r == -1 ==> forall j :: i <= j < |s| ==> s[j] != c
    ensures r >= 0 ==> s[r] == c && forall j :: i <= j < r ==> s[j] != c
    decreases |s| - i
  {
    if i == |s| then -1
    else if s[i] == c then i
    else IndexFrom(s, c, i + 1)
  }

  /** Concatenation is associative. */
  lemma AppendAssoc<T>(a: seq<T>, b: seq<T>, c: seq<T>)
    ensures a + b + c == a + (b + c)
  {
  }

  /** The two halves of a concatenation. */
  lemma AppendSlices<T>(a: seq<T>, b: seq<T>)
    ensures (a + b)[..|a|] == a && (a + b)[|a|..] == b
  {
  }

  /** Slicing inside the first part of a concatenation. */
  lemma DropAppend(a: string, b: string, n: nat)
    requires n <= |a|
    ensures (a + b)[..n] == a[..n]
    ensures (a + b)[n..] == a[n..] + b
  {
    var s := a + b;
    assert |s[n..]| == |a[n..] + b|;
    forall i | 0 <= i < |s[n..]|
      ensures s[n..][i] == (a[n..] + b)[i]
    {
      assert s[n..][i] == s[n + i];
      if n + i < |a| {
        assert (a[n..] + b)[i] == a[n..][i] == a[n + i];
      } else {
        assert (a[n..] + b)[i] == b[i - (|a| - n)] == b[n + i - |a|];
      }
    }
  }

  /** The first `c` of `a` is still the first one after text is appended. */
  lemma IndexOfAppend(a: string, b: string, c: char)
    requires HasChar(a, c)
    ensures IndexOf(a + b, c) == IndexOf(a, c)
  {
    var k := IndexOf(a, c);
    var s := a + b;
    assert s[k] == a[k];
    forall j | 0 <= j < k
      ensures s[j] != c
    {
      assert s[j] == a[j];
    }
  }

  /** `s.split(c)`: the pieces between occurrences of `c`; never empty. */
  function Split(s: string, c: char): (r: seq<string>)
    ensures |r| >= 1
    decreases |s|
  {
    var k := IndexOf(s, c);
    if k == -1 then [s] else [s[..k]] + Split(s[k + 1..], c)
  }

  /** One step of `Split` at the first separator. */
  lemma SplitAt(s: string, c: char, k: int)
    requires k == IndexOf(s, c) && k >= 0
    ensures Split(s, c) == [s[..k]] + Split(s[k + 1..], c)
  {
  }

  /** Text without the separator splits into itself. */
  lemma SplitWhole(s: string, c: char)
    requires IndexOf(s, c) == -1
    ensures Split(s, c) == [s]
  {
  }

  /** No piece of a split contains the separator. */
  lemma {:induction false} SplitPieces(s: string, c: char)
    ensures forall i :: 0 <= i < |Split(s, c)| ==> !HasChar(Split(s, c)[i], c)
    decreases |s|
  {
    var k := IndexOf(s, c);
    if k != -1 {
      SplitPieces(s[k + 1..], c);
      var rest := Split(s[k + 1..], c);
      assert Split(s, c) == [s[..k]] + rest;
      assert !HasChar(s[..k], c) by {
        forall j | 0 <= j < k
          ensures s[..k][j] != c
        {
        }
      }
    }
  }

  /** Splitting text that starts with a piece free of the separator. */
  lemma SplitCons(a: string, b: string, c: char)
    requires !HasChar(a, c)
    ensures Split(a + [c] + b, c) == [a] + Split(b, c)
  {
    var s := a + [c] + b;
    assert s[|a|] == c;
    forall j | 0 <= j < |a|
      ensures s[j] != c
    {
      assert s[j] == a[j];
    }
    assert IndexOf(s, c) == |a|;
    assert s[..|a|] == a && s[|a| + 1..] == b;
  }

  /** Joining the pieces of `Split` with the separator gives back the input. */
  function Join(parts: seq<string>, c: char): string
  {
    if |parts| == 0 then ""
    else if |parts| == 1 then parts[0]
    else parts[0] + [c] + Join(parts[1..], c)
  }

  lemma {:induction false} JoinSplit(s: string, c: char)
    ensures Join(Split(s, c), c) == s
    decreases |s|
  {
    var k := IndexOf(s, c);
    if k != -1 {
      var tail := s[k + 1..];
      JoinSplit(tail, c);
      SplitAt(s, c, k);
      JoinCons(s[..k], Split(tail, c), c);
      CutAround(s, k, tail);
    }
  }

  /** Joining a piece in front of at least one more. */
  lemma JoinCons(p: string, rest: seq<string>, c: char)
    requires |rest| >= 1
    ensures Join([p] + rest, c) == p + [c] + Join(rest, c)
  {
    var parts := [p] + rest;
    assert parts[0] == p && parts[1..] == rest;
  }

  /** The text around position `k` put back together. */
  lemma CutAround(s: string, k: nat, tail: string)
    requires k < |s| && tail == s[k + 1..]
    ensures s[..k] + [s[k]] + tail == s
  {
  }

  /** The pieces that are not empty, in order (`parts.filter(p => p.length > 0)`). */
  function NonEmpty(parts: seq<string>): (r: seq<string>)
    ensures |r| <= |parts|
    ensures forall i :: 0 <= i < |r| ==> r[i] != [] && r[i] in parts
    ensures forall p :: p in parts && p != [] ==> p in r
  {
    if |parts| == 0 then []
    else if parts[0] == [] then NonEmpty(parts[1..])
    else [parts[0]] + NonEmpty(parts[1..])
  }

  /** Concatenation of a list of strings. */
  function Concat(chunks: seq<string>): string
  {
    if |chunks| == 0 then "" else Concat(chunks[..|chunks| - 1]) + chunks[|chunks| - 1]
  }

  /** Every element occurs at most once. */
  predicate NoDuplicates<T(==)>(s: seq<T>)
  {
    forall i, j :: 0 <= i < j < |s| ==> s[i] != s[j]
  }

  /** ASCII case folding (`toLowerCase` restricted to A-Z). */
  function LowerChar(c: char): char
  {
    if 'A' <= c <= 'Z' then (c as int + 32) as char else c
  }

  function ToLower(s: string): (r: string)
    ensures |r| == |s|
    ensures forall i :: 0 <= i < |s| ==> r[i] == LowerChar(s[i])
  {
    seq(|s|, i requires 0 <= i < |s| => LowerChar(s[i]))
  }
}
