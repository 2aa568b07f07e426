/**
 * The kernel's freestanding C library (sys/kern/kernlib.c).
 *
 * A C string is modelled as a `seq<u8>` of the bytes stored before the
 * end of its buffer; reading at or beyond the end yields the terminating
 * NUL (`At`).  Bytes are compared through signed `char`, as on i386.
 */
module KernLib {
  import opened CTypes

  /** The byte at index i of a C string, NUL past the stored bytes. */
  function At(s: seq<u8>, i: nat): (b: u8)
    ensures i < |s| ==> b == s[i]
    ensures i >= |s| ==> b == 0
  {
    if i < |s| then s[i] else 0
  }

  /** `abs` on a 32-bit int; the negation of INT_MIN wraps back to INT_MIN. */
  function Abs(n: int): (r: int)
    requires INT_MIN <= n <= INT_MAX
    ensures n > INT_MIN ==> r >= 0 && (r == n || r == -n)
    ensures n >= 0 ==> r == n
    ensures n == INT_MIN ==> r == INT_MIN
  {
    if n < 0 then ToInt32(-n) else n
  }

  /** The length of s, or n if no NUL occurs among its first n bytes. */
  function StrnLen(s: seq<u8>, n: nat): (r: nat)
    ensures r <= n && r <= |s|
    ensures forall k :: 0 <= k < r ==> s[k] != 0
    ensures r == n || At(s, r) == 0
    decreases n
  {
    if n == 0 || At(s, 0) == 0 then 0 else 1 + StrnLen(s[1..], n - 1)
  }

  method Strnlen(s: seq<u8>, n: nat) returns (i: nat)
    ensures i == StrnLen(s, n)
  {
    i := 0;
    while i < n && At(s, i) != 0
      invariant i <= n && i <= |s|
      invariant StrnLen(s, n) == i + StrnLen(s[i..], n - i)
    {
      assert s[i..][1..] == s[i + 1..];
      i := i + 1;
    }
  }

  /** The index at which the comparison loop of `strncmp` stops. */
  function StopIndex(s1: seq<u8>, s2: seq<u8>, n: nat): (k: nat)
    ensures k <= n
    ensures forall i :: 0 <= i < k ==> At(s1, i) != 0 && At(s1, i) == At(s2, i)
    ensures k < n ==> At(s1, k) == 0 || At(s1, k) != At(s2, k)
    decreases n
  {
    if n == 0 || At(s1, 0) == 0 || At(s1, 0) != At(s2, 0) then 0
    else
      var k := StopIndex(s1[1..], s2[1..], n - 1);
      assert forall i :: 1 <= i < k + 1 ==> At(s1, i) == At(s1[1..], i - 1) && At(s2, i) == At(s2[1..], i - 1);
      1 + k
  }

  /**
   * `strncmp` as written: after the loop stops the difference of the current
   * bytes is returned, also when it stopped because n bytes were compared.
   */
  function StrncmpAsWritten(s1: seq<u8>, s2: seq<u8>, n: nat): (r: int)
    ensures StopIndex(s1, s2, n) < n ==> (r == 0 <==> At(s1, StopIndex(s1, s2, n)) == At(s2, StopIndex(s1, s2, n)))
  {
    var k := StopIndex(s1, s2, n);
    SChar(At(s1, k)) - SChar(At(s2, k))
  }

  method Strncmp(s1: seq<u8>, s2: seq<u8>, n: nat) returns (r: int)
    ensures r == StrncmpAsWritten(s1, s2, n)
  {
    var i := 0;
    while i < n && At(s1, i) != 0 && At(s1, i) == At(s2, i)
      invariant i <= n
      invariant forall j :: 0 <= j < i ==> At(s1, j) != 0 && At(s1, j) == At(s2, j)
    {
      i := i + 1;
    }
    StopIndexIs(s1, s2, n, i);
    r := SChar(At(s1, i)) - SChar(At(s2, i));
  }

  /** StopIndex is the first index where the loop condition fails. */
  lemma {:induction false} StopIndexIs(s1: seq<u8>, s2: seq<u8>, n: nat, i: nat)
    requires i <= n
    requires forall j :: 0 <= j < i ==> At(s1, j) != 0 && At(s1, j) == At(s2, j)
    requires i < n ==> At(s1, i) == 0 || At(s1, i) != At(s2, i)
    ensures StopIndex(s1, s2, n) == i
  {
  }

  /** Two strings that agree on their first n bytes still compare unequal. */
  lemma StrncmpAsWrittenCountsPastN()
    ensures StrncmpAsWritten([0x61, 0x62], [0x61, 0x63], 1) == -1
  {
    StopIndexIs([0x61, 0x62], [0x61, 0x63], 1, 1);
  }

  /** `strncmp` as evidently intended: equal after n bytes means 0. */
  function Strncmp0(s1: seq<u8>, s2: seq<u8>, n: nat): (r: int)
    ensures StopIndex(s1, s2, n) == n ==> r == 0
    ensures StopIndex(s1, s2, n) < n ==> r == StrncmpAsWritten(s1, s2, n)
  {
    var k := StopIndex(s1, s2, n);
    if k == n then 0 else SChar(At(s1, k)) - SChar(At(s2, k))
  }

  /** The corrected comparison is 0 exactly when the strings agree up to n bytes. */
  lemma {:induction false} Strncmp0ZeroIff(s1: seq<u8>, s2: seq<u8>, n: nat)
    ensures Strncmp0(s1, s2, n) == 0 <==> s1[..StrnLen(s1, n)] == s2[..StrnLen(s2, n)]
  {
    var k := StopIndex(s1, s2, n);
    var l1, l2 := StrnLen(s1, n), StrnLen(s2, n);
    if k == n {
      StrnLenIs(s1, n, n);
      StrnLenIs(s2, n, n);
      assert forall j :: 0 <= j < n ==> s1[..n][j] == At(s1, j) == At(s2, j) == s2[..n][j];
      assert s1[..n] == s2[..n];
    } else if At(s1, k) == 0 && At(s2, k) == 0 {
      StrnLenIs(s1, n, k);
      StrnLenIs(s2, n, k);
      assert forall j :: 0 <= j < k ==> s1[..k][j] == At(s1, j) == At(s2, j) == s2[..k][j];
      assert s1[..k] == s2[..k];
    } else if At(s1, k) == 0 {
      StrnLenIs(s1, n, k);
      assert SChar(At(s1, k)) != SChar(At(s2, k));
      assert l2 > k;
      assert |s1[..l1]| != |s2[..l2]|;
    } else {
      assert SChar(At(s1, k)) != SChar(At(s2, k));
      assert l1 > k;
      if l2 <= k {
        assert l2 == k;
        assert |s1[..l1]| != |s2[..l2]|;
      } else {
        assert s1[..l1][k] != s2[..l2][k];
      }
    }
  }

  /** StrnLen is the first NUL index when it lies below n. */
  lemma {:induction false} StrnLenIs(s: seq<u8>, n: nat, i: nat)
    requires i <= n
    requires forall j :: 0 <= j < i ==> At(s, j) != 0
    requires i < n ==> At(s, i) == 0
    ensures StrnLen(s, n) == i
  {
  }

  /** The bytes of a with a[d..d + |s|] replaced by s. */
  function Overwrite(a: seq<u8>, d: nat, s: seq<u8>): (r: seq<u8>)
    requires d + |s| <= |a|
    ensures |r| == |a|
  {
    a[..d] + s + a[d + |s|..]
  }

  /** Copying one more byte extends the overwritten run by that byte. */
  lemma OverwriteStep(a: seq<u8>, d: nat, s: seq<u8>, i: nat, before: seq<u8>, after: seq<u8>)
    requires d + i < |a| && i < |s| && before == Overwrite(a, d, s[..i]) && after == before[d + i := s[i]]
    ensures after == Overwrite(a, d, s[..i + 1])
  {
    assert s[..i + 1] == s[..i] + [s[i]];
  }

  /**
   * `memcpy` to `dest + d`: exactly the n bytes from there on become the
   * first n bytes of src, and nothing else changes; it returns the offset
   * just past the copy.
   */
  method Memcpy(dest: array<u8>, d: nat, src: seq<u8>, n: nat) returns (end: nat)
    requires d + n <= dest.Length && n <= |src|
    modifies dest
    ensures end == d + n
    ensures dest[d..d + n] == src[..n]
    ensures dest[..d] == old(dest[..d]) && dest[d + n..] == old(dest[d + n..])
  {
    ghost var a := dest[..];
    var i := 0;
    while i < n
      invariant i <= n && dest[..] == Overwrite(a, d, src[..i])
    {
      ghost var before := dest[..];
      dest[d + i] := src[i];
      OverwriteStep(a, d, src, i, before, dest[..]);
      i := i + 1;
    }
    assert dest[..] == a[..d] + src[..n] + a[d + n..];
    end := d + i;
  }

  /** `bzero`: exactly the first n bytes become 0. */
  method Bzero(s: array<u8>, n: nat)
    requires n <= s.Length
    modifies s
    ensures forall j :: 0 <= j < n ==> s[j] == 0
    ensures s[n..] == old(s[n..])
  {
    var count := n;
    var p := 0;
    while count > 0
      invariant p + count == n && p <= n
      invariant forall j :: 0 <= j < p ==> s[j] == 0
      invariant s[p..] == old(s[p..])
    {
      count := count - 1;
      s[p] := 0;
      assert s[p + 1..] == old(s[p + 1..]) by {
        assert forall j :: p + 1 <= j < s.Length ==> s[j] == old(s[j]);
      }
      p := p + 1;
    }
  }

  /** `memset`: exactly the first n bytes become (u8)c; it returns s + n. */
  method Memset(s: array<u8>, c: int, n: nat) returns (end: nat)
    requires n <= s.Length
    modifies s
    ensures end == n
    ensures forall j :: 0 <= j < n ==> s[j] as int == Wrap8(c)
    ensures s[n..] == old(s[n..])
  {
    var i := 0;
    while i < n
      invariant i <= n
      invariant forall j :: 0 <= j < i ==> s[j] as int == Wrap8(c)
      invariant s[i..] == old(s[i..])
    {
      s[i] := Wrap8(c) as u8;
      assert s[i + 1..] == old(s[i + 1..]) by {
        assert forall j :: i + 1 <= j < s.Length ==> s[j] == old(s[j]);
      }
      i := i + 1;
    }
    end := i;
  }
}
