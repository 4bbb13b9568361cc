/** NUL-terminated strings and overlapping memory moves: string.c. */
module CString {
  const NUL: char := '\0'

  /** The characters from index `i` up to the first NUL (or the end of the memory). */
  function Text(b: seq<char>, i: nat): (s: string)
    ensures NUL !in s
    decreases |b| - i
  {
    if i >= |b| || b[i] == NUL then "" else [b[i]] + Text(b, i + 1)
  }

  ghost predicate Terminated(b: seq<char>, i: nat) {
    exists k :: i <= k < |b| && b[k] == NUL
  }

  /** `s` stands at index `i`, with its terminator. */
  ghost predicate TextAt(b: seq<char>, i: nat, s: string) {
    && i + |s| < |b| && b[i..i + |s|] == s && b[i + |s|] == NUL && NUL !in s
  }

  lemma {:induction false} TextAtMeans(b: seq<char>, i: nat, s: string)
    requires TextAt(b, i, s)
    ensures Text(b, i) == s
    decreases |s|
  {
    if s != "" {
      assert s[0] == b[i..i + |s|][0] && s[0] in s;
      assert b[i + 1..i + |s|] == s[1..];
      TextAtMeans(b, i + 1, s[1..]);
    }
  }

  method StrLen(b: array<char>, i: nat) returns (len: nat)
    requires Terminated(b[..], i)
    ensures len == |Text(b[..], i)|
  {
    len := 0;
    ghost var k :| i <= k < b.Length && b[k] == NUL;
    while b[i + len] != NUL
      invariant i + len <= k
      invariant |Text(b[..], i)| == len + |Text(b[..], i + len)|
      decreases k - (i + len)
    {
      len := len + 1;
    }
  }

  /** strcmp: zero exactly for equal strings, and otherwise the sign of the first difference. */
  method StrCmp(a: seq<char>, b: seq<char>) returns (r: int)
    requires Terminated(a, 0) && Terminated(b, 0)
    ensures r == 0 <==> Text(a, 0) == Text(b, 0)
    ensures r < 0 <==> Precedes(Text(a, 0), Text(b, 0))
  {
    var i := 0;
    ghost var k :| 0 <= k < |a| && a[k] == NUL;
    ghost var l :| 0 <= l < |b| && b[l] == NUL;
    while a[i] != NUL && a[i] == b[i]
      invariant i <= k && i <= l
      invariant Text(a, 0) == Text(b, 0) <==> Text(a, i) == Text(b, i)
      invariant Precedes(Text(a, 0), Text(b, 0)) <==> Precedes(Text(a, i), Text(b, i))
      decreases k - i
    {
      SameHead(Text(a, i + 1), Text(b, i + 1), a[i]);
      i := i + 1;
    }
    r := a[i] as int - b[i] as int;
  }

  /** Dictionary order by character code; a proper prefix comes first. */
  predicate Precedes(s: string, t: string) {
    if t == "" then false
    else if s == "" then true
    else s[0] < t[0] || (s[0] == t[0] && Precedes(s[1..], t[1..]))
  }

  lemma SameHead(s: string, t: string, c: char)
    ensures [c] + s == [c] + t <==> s == t
    ensures Precedes([c] + s, [c] + t) <==> Precedes(s, t)
  {
    assert ([c] + s)[1..] == s && ([c] + t)[1..] == t;
  }

  /** memmove: the bytes arrive intact even when source and destination overlap. */
  method MemMove<T>(mem: array<T>, dest: nat, src: nat, n: nat)
    requires dest + n <= mem.Length && src + n <= mem.Length
    modifies mem
    ensures mem[dest..dest + n] == old(mem[src..src + n])
    ensures mem[..dest] == old(mem[..dest]) && mem[dest + n..] == old(mem[dest + n..])
  {
    if dest < src {
      for i := 0 to n
        invariant forall k :: dest <= k < dest + i ==> mem[k] == old(mem[k + src - dest])
        invariant forall k :: 0 <= k < mem.Length && !(dest <= k < dest + i) ==> mem[k] == old(mem[k])
      {
        mem[dest + i] := mem[src + i];
      }
    } else {
      for i := n downto 0
        invariant forall k :: dest + i <= k < dest + n ==> mem[k] == old(mem[k + src - dest])
        invariant forall k :: 0 <= k < mem.Length && !(dest + i <= k < dest + n) ==> mem[k] == old(mem[k])
      {
        mem[dest + i] := mem[src + i];
      }
    }
  }
}
