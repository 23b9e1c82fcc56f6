/**
 * The PHP string functions the core relies on, over ASCII: strtolower,
 * ucfirst, strpos, explode (with its inverse implode) and trim.
 */
module Strings {
  import opened Values

  function LowerChar(c: char): char
  {
    if 'A' <= c <= 'Z' then (c as int + 32) as char else c
  }

  function UpperChar(c: char): char
  {
    if 'a' <= c <= 'z' then (c as int - 32) as char else c
  }

  /** strtolower: byte-wise, only ASCII letters change. */
  function ToLower(s: string): (r: string)
    ensures |r| == |s|
    ensures forall i :: 0 <= i < |s| ==> r[i] == LowerChar(s[i])
  {
    seq(|s|, i requires 0 <= i < |s| => LowerChar(s[i]))
  }

  lemma ToLowerIdempotent(s: string)
    ensures ToLower(ToLower(s)) == ToLower(s)
  {
  }

  /** ucfirst: upper-cases the first character only. */
  function UcFirst(s: string): (r: string)
    ensures |r| == |s|
    ensures |s| > 0 ==> r[0] == UpperChar(s[0]) && r[1..] == s[1..]
  {
    if s == [] then [] else [UpperChar(s[0])] + s[1..]
  }

  lemma LowerOfUpper(c: char)
    ensures LowerChar(UpperChar(c)) == LowerChar(c)
  {
  }

  /** ucfirst only changes case: lower-casing undoes it. */
  lemma ToLowerUcFirst(s: string)
    ensures ToLower(UcFirst(s)) == ToLower(s)
  {
    if s != [] {
      LowerOfUpper(s[0]);
      assert ToLower(UcFirst(s))[0] == ToLower(s)[0];
    }
  }

  predicate OccursAt(s: string, sub: string, j: int)
  {
    0 <= j && j + |sub| <= |s| && s[j..j + |sub|] == sub
  }

  /** strpos($s, $sub, $from): the first position at or after `from` where `sub` occurs. */
  function FindFrom(s: string, sub: string, from: nat): (r: Option<nat>)
    ensures r.Some? ==> from <= r.value && OccursAt(s, sub, r.value)
    ensures r.Some? ==> forall j :: from <= j < r.value ==> !OccursAt(s, sub, j)
    ensures r.None? ==> forall j :: from <= j ==> !OccursAt(s, sub, j)
    decreases |s| - from
  {
    if from + |sub| > |s| then None
    else if OccursAt(s, sub, from) then Some(from)
    else FindFrom(s, sub, from + 1)
  }

  /** strpos($s, $sub): the first occurrence, or None for PHP's `false`. */
  function Find(s: string, sub: string): (r: Option<nat>)
    ensures r.Some? <==> exists j :: OccursAt(s, sub, j)
    ensures r.Some? ==> OccursAt(s, sub, r.value) && forall j :: 0 <= j < r.value ==> !OccursAt(s, sub, j)
  {
    FindFrom(s, sub, 0)
  }

  predicate Contains(s: string, sub: string)
  {
    Find(s, sub).Some?
  }

  /** The position of the first `d` in `s`, or |s| when there is none. */
  function IndexOfChar(s: string, d: char): (k: nat)
    ensures k <= |s|
    ensures k < |s| ==> s[k] == d
    ensures d !in s[..k]
  {
    if s == [] then 0
    else if s[0] == d then 0
    else
      var k := 1 + IndexOfChar(s[1..], d);
      assert s[..k] == [s[0]] + s[1..][..k - 1];
      k
  }

  /** implode: the parts joined with `d` between consecutive parts. */
  function Join(parts: seq<string>, d: char): string
    requires |parts| >= 1
  {
    if |parts| == 1 then parts[0] else parts[0] + [d] + Join(parts[1..], d)
  }

  /** explode: the pieces of `s` between occurrences of `d`; never empty. */
  function Split(s: string, d: char): (parts: seq<string>)
    ensures |parts| >= 1
    ensures forall i :: 0 <= i < |parts| ==> d !in parts[i]
    decreases |s|
  {
    var k := IndexOfChar(s, d);
    if k == |s| then [s] else [s[..k]] + Split(s[k + 1..], d)
  }

  /** The first `d` is at `k` when `k` holds `d` (or is the end) and nothing before it does. */
  lemma IndexOfCharAt(s: string, d: char, k: nat)
    requires k <= |s| && (k < |s| ==> s[k] == d) && d !in s[..k]
    ensures IndexOfChar(s, d) == k
  {
    var m := IndexOfChar(s, d);
    assert forall i :: 0 <= i < k ==> s[..k][i] == s[i];
    assert forall i :: 0 <= i < m ==> s[..m][i] == s[i];
  }

  /** Joining the pieces of `explode` restores the input. */
  lemma {:induction false} JoinSplit(s: string, d: char)
    ensures Join(Split(s, d), d) == s
    decreases |s|
  {
    var k := IndexOfChar(s, d);
    if k < |s| {
      var head := s[..k];
      var rest := Split(s[k + 1..], d);
      JoinSplit(s[k + 1..], d);
      assert Split(s, d) == [head] + rest;
      assert Join([head] + rest, d) == head + [d] + Join(rest, d) by {
        assert ([head] + rest)[0] == head;
        assert ([head] + rest)[1..] == rest;
      }
      assert s == head + [d] + s[k + 1..];
    } else {
      assert Split(s, d) == [s];
    }
  }

  /** Splitting a join of `d`-free parts gives the parts back. */
  lemma {:induction false} SplitJoin(parts: seq<string>, d: char)
    requires |parts| >= 1
    requires forall i :: 0 <= i < |parts| ==> d !in parts[i]
    ensures Split(Join(parts, d), d) == parts
    decreases |parts|
  {
    var s := Join(parts, d);
    var h := parts[0];
    if |parts| == 1 {
      assert s[..|s|] == s;
      IndexOfCharAt(s, d, |s|);
    } else {
      var tail := Join(parts[1..], d);
      assert s == h + [d] + tail;
      assert s[..|h|] == h;
      IndexOfCharAt(s, d, |h|);
      assert s[|h| + 1..] == tail;
      SplitJoin(parts[1..], d);
      assert Split(s, d) == [h] + Split(tail, d);
      assert parts == [h] + parts[1..];
    }
  }

  /** The characters PHP's trim removes by default. */
  predicate IsTrimmed(c: char)
  {
    c == ' ' || c == '\t' || c == '\n' || c == '\r' || c == '\0' || c == 11 as char
  }

  function LeadingCount(s: string): (k: nat)
    ensures k <= |s|
    ensures forall i :: 0 <= i < k ==> IsTrimmed(s[i])
    ensures k < |s| ==> !IsTrimmed(s[k])
  {
    if s != [] && IsTrimmed(s[0]) then 1 + LeadingCount(s[1..]) else 0
  }

  function TrailingCount(s: string): (k: nat)
    ensures k <= |s|
    ensures forall i :: |s| - k <= i < |s| ==> IsTrimmed(s[i])
    ensures k < |s| ==> !IsTrimmed(s[|s| - 1 - k])
  {
    if s != [] && IsTrimmed(s[|s| - 1]) then 1 + TrailingCount(s[..|s| - 1]) else 0
  }

  /** `r` is `s` with `a` characters of whitespace cut from its front and `t` from its back. */
  predicate StripsEnds(s: string, r: string, a: nat, t: nat)
  {
    && a + t <= |s| && r == s[a..|s| - t]
    && (forall q :: 0 <= q < a ==> IsTrimmed(s[q]))
    && (forall q :: |s| - t <= q < |s| ==> IsTrimmed(s[q]))
  }

  /** trim: strips the default whitespace from both ends and keeps the inside. */
  function Trim(s: string): (r: string)
    ensures r == [] || (!IsTrimmed(r[0]) && !IsTrimmed(r[|r| - 1]))
    ensures exists a: nat, t: nat :: StripsEnds(s, r, a, t)
    ensures |r| <= |s|
  {
    var a := LeadingCount(s);
    if a == |s| then
      assert StripsEnds(s, [], a, 0);
      []
    else
      var t := TrailingCount(s);
      assert IsTrimmed(s[|s| - 1 - t]) ==> |s| - 1 - t != a;
      assert StripsEnds(s, s[a..|s| - t], a, t);
      s[a..|s| - t]
  }

  /** A string without whitespace at either end is its own trim. */
  lemma TrimKeepsClean(s: string)
    requires s == [] || (!IsTrimmed(s[0]) && !IsTrimmed(s[|s| - 1]))
    ensures Trim(s) == s
  {
    if s != [] {
      assert LeadingCount(s) == 0;
      assert TrailingCount(s) == 0;
    }
  }

  /** trim is idempotent. */
  lemma TrimIdempotent(s: string)
    ensures Trim(Trim(s)) == Trim(s)
  {
    TrimKeepsClean(Trim(s));
  }
}
