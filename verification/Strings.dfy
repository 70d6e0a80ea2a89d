/** Lengths of NUL-terminated strings, byte by byte and in blocks of sixteen. */
module Strings {

  const NUL: char := '\0'

  /** The string at the start of the memory `s` is `n` bytes long. */
  ghost predicate IsLength(s: seq<char>, n: nat) {
    n < |s| && s[n] == NUL && forall i :: 0 <= i < n ==> s[i] != NUL
  }

  ghost predicate Terminated(s: seq<char>) {
    exists i :: 0 <= i < |s| && s[i] == NUL
  }

  /** `strlen`: one byte at a time. */
  method StrLen(s: seq<char>) returns (n: nat)
    requires Terminated(s)
    ensures IsLength(s, n)
  {
    n := 0;
    ghost var end :| 0 <= end < |s| && s[end] == NUL;
    while s[n] != NUL
      invariant n <= end && forall i :: 0 <= i < n ==> s[i] != NUL
      decreases end - n
    {
      n := n + 1;
    }
  }

  // ----- the packed comparison -----

  /** The index of the first byte of a 16-byte operand that is not part of its string. */
  function Valid(block: seq<char>): (k: nat)
    ensures k <= |block|
    ensures forall i :: 0 <= i < k ==> block[i] != NUL
    ensures k < |block| ==> block[k] == NUL
  {
    if block == [] then 0 else if block[0] == NUL then 0 else 1 + Valid(block[1..])
  }

  /** Equal-each aggregation of implicit-length strings (Intel SDM volume 2B, section
      4.1.6): both bytes past the end compare equal, one of them alone does not. */
  predicate EqualEach(a: seq<char>, b: seq<char>, i: nat)
    requires |a| == |b| == 16 && i < 16
  {
    if i < Valid(a) && i < Valid(b) then a[i] == b[i] else i >= Valid(a) && i >= Valid(b)
  }

  /** ECX after `pcmpistri` with positive polarity: the least index that compares equal,
      or 16. */
  function Index(a: seq<char>, b: seq<char>, from: nat): (k: nat)
    requires |a| == |b| == 16 && from <= 16
    ensures from <= k <= 16
    ensures k < 16 ==> EqualEach(a, b, k)
    ensures forall i :: from <= i < k ==> !EqualEach(a, b, i)
    decreases 16 - from
  {
    if from == 16 then 16 else if EqualEach(a, b, from) then from else Index(a, b, from + 1)
  }

  /** ZF after `pcmpistri`: some byte of the second operand is NUL. */
  predicate ZeroFlag(b: seq<char>) {
    exists i :: 0 <= i < |b| && b[i] == NUL
  }

  const ZEROES: seq<char> := seq(16, _ => NUL)

  /** Compared with an empty string, the index is the length of the other one. */
  lemma {:induction false} IndexAgainstEmpty(block: seq<char>)
    requires |block| == 16
    ensures Index(ZEROES, block, 0) == Valid(block)
  {
    var k := Index(ZEROES, block, 0);
    assert Valid(ZEROES) == 0;
    assert k < 16 ==> EqualEach(ZEROES, block, k);
    if k > 0 {
      assert !EqualEach(ZEROES, block, k - 1);
    }
  }

  /** `sse_strlen`: compares sixteen bytes at a time with an empty string, whatever follows
      the terminator in its block, and finds the same length as `strlen`. */
  method SseStrLen(s: seq<char>, ghost n: nat) returns (r: nat)
    requires IsLength(s, n) && n / 16 * 16 + 16 <= |s|
    ensures r == n
  {
    hide Index, Valid, EqualEach;
    var rax := -16;
    var more := true;
    var rcx := 16;
    while more
      invariant rax % 16 == 0 && -16 <= rax <= n
      invariant more ==> rax + 16 <= n
      invariant !more ==> n < rax + 16 && rcx == n - rax
      decreases if more then n - rax else -100
    {
      rax := rax + 16;
      var block := s[rax..rax + 16];
      rcx := Index(ZEROES, block, 0);
      more := !ZeroFlag(block);
      IndexAgainstEmpty(block);
      if n < rax + 16 {
        assert block[n - rax] == NUL && forall i :: 0 <= i < n - rax ==> block[i] != NUL;
      }
    }
    r := rax + rcx;
  }
}
