/**
 * The string operations of Go's `strings` package that the replacer relies on:
 * `strings.Index`, `strings.Split` with a non-empty separator and `strings.Join`.
 * Strings are sequences of characters.
 */
module Text {
  import opened Wrappers

  /** `d` occurs in `s` starting at position `i`. */
  predicate OccursAt(s: string, d: string, i: nat) {
    i + |d| <= |s| && s[i..i + |d|] == d
  }

  /** `s` holds no occurrence of `d`. */
  ghost predicate Free(s: string, d: string) {
    forall i: nat :: !OccursAt(s, d, i)
  }

  /** The first occurrence of `d` in `s` at or after position `from`. */
  function IndexFrom(s: string, d: string, from: nat): (r: Option<nat>)
    decreases |s| - from
    ensures r.Some? ==> from <= r.value && OccursAt(s, d, r.value)
    ensures r.Some? ==> forall j: nat :: from <= j < r.value ==> !OccursAt(s, d, j)
    ensures r.None? ==> forall j: nat :: from <= j ==> !OccursAt(s, d, j)
  {
    if from + |d| > |s| then None
    else if s[from..from + |d|] == d then Some(from)
    else IndexFrom(s, d, from + 1)
  }

  /** Go's `strings.Index`: the first occurrence of `d` in `s`, if any. */
  function Index(s: string, d: string): (r: Option<nat>)
    requires d != []
    ensures r.Some? ==> OccursAt(s, d, r.value) && forall j: nat :: j < r.value ==> !OccursAt(s, d, j)
    ensures r.Some? ==> Free(s[..r.value], d)
    ensures r.None? ==> Free(s, d)
  {
    var r := IndexFrom(s, d, 0);
    if r.Some? then
      assert forall j: nat :: !OccursAt(s[..r.value], d, j) by {
        forall j: nat | OccursAt(s[..r.value], d, j) ensures false {
          assert s[..r.value][j..j + |d|] == s[j..j + |d|];
          assert OccursAt(s, d, j);
        }
      }
      r
    else
      r
  }

  /**
   * Go's `strings.Split(s, d)` for a non-empty separator: the pieces of `s`
   * between the successive non-overlapping occurrences of `d`, found from the left.
   */
  function Split(s: string, d: string): (r: seq<string>)
    requires d != []
    decreases |s|
    ensures |r| >= 1
    ensures forall k :: 0 <= k < |r| ==> Free(r[k], d)
  {
    match Index(s, d)
    case None => [s]
    case Some(i) => [s[..i]] + Split(s[i + |d|..], d)
  }

  /**
   * The split is the leftmost one: there is a single piece exactly when the separator
   * does not occur, and otherwise the first piece ends at its first occurrence.
   */
  lemma SplitLeftmost(s: string, d: string)
    requires d != []
    ensures |Split(s, d)| == 1 <==> Index(s, d).None?
    ensures |Split(s, d)| > 1 ==> Index(s, d) == Some(|Split(s, d)[0]|)
  {
  }

  /** Go's `strings.Join`: the pieces with one `d` between each two neighbours. */
  function Join(f: seq<string>, d: string): string
  {
    if |f| == 0 then ""
    else if |f| == 1 then f[0]
    else f[0] + d + Join(f[1..], d)
  }

  /** Joining the pieces of a split with the same separator restores the text. */
  lemma {:induction false} JoinSplit(s: string, d: string)
    requires d != []
    decreases |s|
    ensures Join(Split(s, d), d) == s
  {
    match Index(s, d)
    case None =>
    case Some(i) =>
      var rest := s[i + |d|..];
      var f := Split(s, d);
      assert f == [s[..i]] + Split(rest, d);
      assert f[1..] == Split(rest, d);
      JoinSplit(rest, d);
      assert Join(f, d) == s[..i] + d + rest;
      assert s == s[..i] + s[i..i + |d|] + rest;
  }

  /** A text without the character of a one-character separator holds no occurrence of it. */
  lemma FreeOfChar(s: string, d: string)
    requires |d| == 1 && d[0] !in s
    ensures Free(s, d)
  {
    forall i: nat ensures !OccursAt(s, d, i) {
      if i + 1 <= |s| {
        assert s[i..i + 1][0] == s[i];
      }
    }
  }

  /** With a one-character separator, an occurrence preceded by none is the one `Index` finds. */
  lemma IndexOfFirst(s: string, d: string, n: nat)
    requires |d| == 1 && OccursAt(s, d, n) && Free(s[..n], d)
    ensures Index(s, d) == Some(n)
  {
    forall j: nat | j < n ensures !OccursAt(s, d, j) {
      assert !OccursAt(s[..n], d, j);
      if j + 1 <= n {
        assert s[..n][j..j + 1] == s[j..j + 1];
      }
    }
  }

  /**
   * With a one-character separator that no piece contains, splitting the joined
   * text gives the pieces back.
   */
  lemma {:induction false} SplitJoin(f: seq<string>, d: string)
    requires |d| == 1 && |f| >= 1
    requires forall k :: 0 <= k < |f| ==> d[0] !in f[k]
    ensures Split(Join(f, d), d) == f
  {
    FreeOfChar(f[0], d);
    if |f| > 1 {
      var s := Join(f, d);
      var rest := Join(f[1..], d);
      var n := |f[0]|;
      assert s == f[0] + d + rest;
      assert s[..n] == f[0];
      assert s[n..n + 1] == d;
      IndexOfFirst(s, d, n);
      assert s[n + 1..] == rest;
      SplitJoin(f[1..], d);
    }
  }

  /** The text of the pieces before piece `k`, with the separator that follows them. */
  function Before(f: seq<string>, k: nat, d: string): string
    requires k < |f|
  {
    if k == 0 then "" else Join(f[..k], d) + d
  }

  /** The text of the pieces after piece `k`, with the separator that precedes them. */
  function After(f: seq<string>, k: nat, d: string): string
    requires k < |f|
  {
    if k == |f| - 1 then "" else d + Join(f[k + 1..], d)
  }

  /**
   * A joined text is the pieces before `k`, piece `k` and the pieces after it; so
   * replacing piece `k` before joining changes that piece of the text and nothing else.
   */
  lemma {:induction false} JoinAround(f: seq<string>, k: nat, d: string)
    requires k < |f|
    ensures Join(f, d) == Before(f, k, d) + f[k] + After(f, k, d)
  {
    if k > 0 {
      var g := f[1..];
      JoinAround(g, k - 1, d);
      assert g[k - 1] == f[k];
      AfterTail(f, k, d);
      BeforeTail(f, k, d);
      JoinCons(f, d);
    }
  }

  lemma JoinCons(f: seq<string>, d: string)
    requires |f| >= 2
    ensures Join(f, d) == f[0] + d + Join(f[1..], d)
  {
  }

  lemma BeforeTail(f: seq<string>, k: nat, d: string)
    requires 0 < k < |f|
    ensures Before(f, k, d) == f[0] + d + Before(f[1..], k - 1, d)
  {
    var g := f[1..];
    if k == 1 {
      assert f[..1] == [f[0]];
    } else {
      assert f[..k][1..] == g[..k - 1];
      JoinCons(f[..k], d);
    }
  }

  lemma AfterTail(f: seq<string>, k: nat, d: string)
    requires 0 < k < |f|
    ensures After(f[1..], k - 1, d) == After(f, k, d)
  {
    assert f[1..][k..] == f[k + 1..];
  }

  /** Replacing piece `k` before joining leaves the text around it unchanged. */
  lemma JoinReplace(f: seq<string>, k: nat, x: string, d: string)
    requires k < |f|
    ensures Join(f[k := x], d) == Before(f, k, d) + x + After(f, k, d)
  {
    var g := f[k := x];
    JoinAround(g, k, d);
    assert g[..k] == f[..k];
    assert g[k + 1..] == f[k + 1..];
  }

  /**
   * Replacing piece `k` of a split text and joining again changes the text in that
   * piece only: the text before and after it stays as it was.
   */
  lemma SplitReplaceJoin(s: string, d: string, k: nat, x: string)
    requires d != [] && k < |Split(s, d)|
    ensures var f := Split(s, d);
            s == Before(f, k, d) + f[k] + After(f, k, d) &&
            Join(f[k := x], d) == Before(f, k, d) + x + After(f, k, d)
  {
    var f := Split(s, d);
    JoinSplit(s, d);
    JoinAround(f, k, d);
    JoinReplace(f, k, x, d);
  }
}
