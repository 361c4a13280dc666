/** Zero-terminated strings. */
module Strings {
  import opened Words

  /** The characters of a zero-terminated string. */
  function Text(str: seq<byte>): (t: seq<byte>) {
    if str == [] || str[0] == 0 then [] else [str[0]] + Text(str[1..])
  }

  lemma {:induction false} TextIs(str: seq<byte>, i: nat)
    requires i < |str| && str[i] == 0 && 0 !in str[..i]
    ensures Text(str) == str[..i]
    decreases i
  {
    if i > 0 {
      assert str[0] in str[..i];
      assert str[1..][..i - 1] == str[..i][1..];
      TextIs(str[1..], i - 1);
    }
  }

  /** At most the first `n` characters. */
  function Clip(s: seq<byte>, n: nat): seq<byte> {
    if |s| <= n then s else s[..n]
  }

  /** The longest beginning of `s` that has at most `n` characters. */
  lemma ClipReads(s: seq<byte>, n: nat)
    ensures Clip(s, n) <= s && |Clip(s, n)| == if |s| < n then |s| else n
  {
  }
}
