/** Terminal responses as byte sequences, and the searches run over them:
    substring tests (str::contains), first-occurrence split (str::split_once),
    last-occurrence split (slice::rsplitn) and prefix/suffix tests. */
module Bytes {
  import opened Wrappers

  /** One byte of terminal input (Rust's u8). */
  type Byte = b: int | 0 <= b < 0x100

  /** The escape byte 0x1B that opens every control sequence. */
  const ESC: Byte := 0x1B

  /** p occurs in s starting at index i. */
  predicate OccursAt(s: seq<Byte>, p: seq<Byte>, i: nat) {
    i + |p| <= |s| && s[i..i + |p|] == p
  }

  /** p occurs somewhere in s (str::contains). */
  predicate Contains(s: seq<Byte>, p: seq<Byte>) {
    exists i :: 0 <= i <= |s| && OccursAt(s, p, i)
  }

  /** i is the first index at which p occurs in s. */
  predicate FirstAt(s: seq<Byte>, p: seq<Byte>, i: nat) {
    OccursAt(s, p, i) && forall j :: 0 <= j < i ==> !OccursAt(s, p, j)
  }

  /** s begins with p (slice::starts_with). */
  predicate StartsWith(s: seq<Byte>, p: seq<Byte>) {
    |p| <= |s| && s[..|p|] == p
  }

  /** s ends with p (slice::ends_with). */
  predicate EndsWith(s: seq<Byte>, p: seq<Byte>) {
    |p| <= |s| && s[|s| - |p|..] == p
  }

  /** The first index at or after start where p occurs, scanning left to right. */
  function FindFrom(s: seq<Byte>, p: seq<Byte>, start: nat): (r: Option<nat>)
    ensures r.Some? ==> start <= r.value && OccursAt(s, p, r.value)
    ensures forall j :: start <= j && (r.None? || j < r.value) ==> !OccursAt(s, p, j)
    decreases |s| - start
  {
    if start + |p| > |s| then None
    else if OccursAt(s, p, start) then Some(start)
    else FindFrom(s, p, start + 1)
  }

  /** Where str::split_once(p) splits s: the first occurrence of p, if any. */
  function FindFirst(s: seq<Byte>, p: seq<Byte>): (r: Option<nat>)
    ensures r.Some? ==> FirstAt(s, p, r.value)
    ensures r.None? <==> !Contains(s, p)
  {
    FindFrom(s, p, 0)
  }

  /** There is at most one first occurrence. */
  lemma FirstAtUnique(s: seq<Byte>, p: seq<Byte>, i: nat, j: nat)
    requires FirstAt(s, p, i) && FirstAt(s, p, j)
    ensures i == j
  {
  }

  /** A pattern that starts with ESC, placed after ESC-free bytes, occurs
      first right there. */
  lemma FirstAfterEscFree(pre: seq<Byte>, p: seq<Byte>, rest: seq<Byte>)
    requires ESC !in pre && |p| > 0 && p[0] == ESC
    ensures FirstAt(pre + p + rest, p, |pre|)
  {
    var s := pre + p + rest;
    assert s[|pre|..|pre| + |p|] == p;
    forall j | 0 <= j < |pre|
      ensures !OccursAt(s, p, j)
    {
      assert s[j] == pre[j];
    }
  }

  /** The index of the last b in s, if any (the split point of rsplitn(2, ..)). */
  function LastIndexOf(s: seq<Byte>, b: Byte): (r: Option<nat>)
    ensures r.None? <==> b !in s
    ensures r.Some? ==> r.value < |s| && s[r.value] == b && b !in s[r.value + 1..]
  {
    if |s| == 0 then None
    else if s[|s| - 1] == b then Some(|s| - 1)
    else
      var r := LastIndexOf(s[..|s| - 1], b);
      assert s == s[..|s| - 1] + [s[|s| - 1]];
      if r.Some? then
        assert s[r.value + 1..] == s[..|s| - 1][r.value + 1..] + [s[|s| - 1]];
        r
      else r
  }

  /** The segment after the last b, or all of s when b is absent:
      the first item yielded by s.rsplitn(2, |x| x == b). */
  function AfterLast(s: seq<Byte>, b: Byte): (r: seq<Byte>)
    ensures b !in r
    ensures b !in s ==> r == s
    ensures b in s ==> |r| < |s| && s[|s| - |r| - 1] == b && r == s[|s| - |r|..]
  {
    match LastIndexOf(s, b)
    case None => s
    case Some(i) => s[i + 1..]
  }

  /** The segment after the last b is the one b-free suffix that b precedes. */
  lemma AfterLastUnique(s: seq<Byte>, b: Byte, r: seq<Byte>)
    requires |r| < |s| && s[|s| - |r| - 1] == b && r == s[|s| - |r|..] && b !in r
    ensures AfterLast(s, b) == r
  {
  }

  /** Bytes before the last b do not change what follows it. */
  lemma AfterLastAppend(x: seq<Byte>, y: seq<Byte>, b: Byte)
    requires b in y
    ensures AfterLast(x + y, b) == AfterLast(y, b)
  {
    var r := AfterLast(y, b);
    var s := x + y;
    assert s[|s| - |r| - 1] == y[|y| - |r| - 1];
    assert s[|s| - |r|..] == y[|y| - |r|..];
    AfterLastUnique(s, b, r);
  }
}
