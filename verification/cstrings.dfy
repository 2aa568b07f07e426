/**
 * NUL-terminated strings and '/'-separated path components, as the file
 * systems and the path walk read them.  A C string is held in a `seq<u8>`;
 * reading past the end of the sequence yields NUL, so every string is
 * terminated.  `char` is signed on this target, so comparisons subtract the
 * signed values of the bytes.
 */
module CStrings {
  import opened CTypes

  const NUL: u8 := 0
  const SLASH: u8 := 0x2f

  /** The byte at index i of a C string held in s; past the end it reads as NUL. */
  function CharAt(s: seq<u8>, i: int): u8 {
    if 0 <= i < |s| then s[i] else NUL
  }

  /** Index of the first byte at or after i that ends a path component (NUL or '/'). */
  function ComponentEnd(s: seq<u8>, i: nat): (e: nat)
    ensures i <= e && (CharAt(s, e) == NUL || CharAt(s, e) == SLASH)
    ensures forall k :: i <= k < e ==> CharAt(s, k) != NUL && CharAt(s, k) != SLASH
    decreases |s| - i
  {
    if CharAt(s, i) == NUL || CharAt(s, i) == SLASH then i else ComponentEnd(s, i + 1)
  }

  /** Index of the first NUL at or after i. */
  function StrEnd(s: seq<u8>, i: nat): (e: nat)
    ensures i <= e && CharAt(s, e) == NUL
    ensures forall k :: i <= k < e ==> CharAt(s, k) != NUL
    decreases |s| - i
  {
    if CharAt(s, i) == NUL then i else StrEnd(s, i + 1)
  }

  /** The first component of a path: the bytes before the first '/' or NUL. */
  function Component(path: seq<u8>): seq<u8> {
    seq(ComponentEnd(path, 0), k => CharAt(path, k))
  }

  /** The bytes of a C string before its NUL. */
  function CStr(s: seq<u8>): seq<u8> {
    seq(StrEnd(s, 0), k => CharAt(s, k))
  }

  /** The first index with a given property is unique. */
  lemma FirstEnd(s: seq<u8>, e: nat, isEnd: u8 -> bool, found: nat)
    requires isEnd(CharAt(s, e)) && forall k :: 0 <= k < e ==> !isEnd(CharAt(s, k))
    requires isEnd(CharAt(s, found)) && forall k :: 0 <= k < found ==> !isEnd(CharAt(s, k))
    ensures e == found
  {
  }

  // ---------------------------------------------------------------------------
  // strcmp
  // ---------------------------------------------------------------------------

  /**
   * The index where a comparison of s1 with s2 stops: the first index at or
   * after i where s1 ends or the two strings differ.
   */
  function Mismatch(s1: seq<u8>, s2: seq<u8>, i: nat): (d: nat)
    ensures i <= d && (CharAt(s1, d) == NUL || CharAt(s1, d) != CharAt(s2, d))
    ensures forall k :: i <= k < d ==> CharAt(s1, k) != NUL && CharAt(s1, k) == CharAt(s2, k)
    decreases |s1| - i
  {
    if CharAt(s1, i) == NUL || CharAt(s1, i) != CharAt(s2, i) then i else Mismatch(s1, s2, i + 1)
  }

  /**
   * strcmp: the signed difference of the bytes where the strings first
   * differ; it is 0 exactly when the two strings are equal.
   */
  method Strcmp(s1: seq<u8>, s2: seq<u8>) returns (r: int)
    ensures r == 0 <==> CStr(s1) == CStr(s2)
    ensures var d := Mismatch(s1, s2, 0); r == SChar(CharAt(s1, d)) - SChar(CharAt(s2, d))
  {
    var i := 0;
    while CharAt(s1, i) != NUL && CharAt(s1, i) == CharAt(s2, i)
      invariant forall k :: 0 <= k < i ==> CharAt(s1, k) != NUL && CharAt(s1, k) == CharAt(s2, k)
      decreases |s1| - i
    {
      i := i + 1;
    }
    MismatchIs(s1, s2, i);
    r := SChar(CharAt(s1, i)) - SChar(CharAt(s2, i));
    var e1 := StrEnd(s1, 0);
    var e2 := StrEnd(s2, 0);
    if CharAt(s1, i) == CharAt(s2, i) {
      // both strings end at i
      FirstEnd(s1, e1, c => c == NUL, i);
      FirstEnd(s2, e2, c => c == NUL, i);
      assert CStr(s1) == CStr(s2);
    } else if i < e1 && i < e2 {
      assert CStr(s1)[i] != CStr(s2)[i];
    } else if e1 <= i {
      FirstEnd(s1, e1, c => c == NUL, i);
      assert CharAt(s2, i) != NUL;
      assert e1 < e2;
    } else {
      FirstEnd(s2, e2, c => c == NUL, i);
    }
  }

  /** Mismatch is the first stopping index, wherever the search finds it. */
  lemma MismatchIs(s1: seq<u8>, s2: seq<u8>, i: nat)
    requires CharAt(s1, i) == NUL || CharAt(s1, i) != CharAt(s2, i)
    requires forall k :: 0 <= k < i ==> CharAt(s1, k) != NUL && CharAt(s1, k) == CharAt(s2, k)
    ensures Mismatch(s1, s2, 0) == i
  {
    var d := Mismatch(s1, s2, 0);
    assert d <= i;
  }

  // ---------------------------------------------------------------------------
  // strcmp_dent
  // ---------------------------------------------------------------------------

  /**
   * When strcmp_dent accepts a directory-entry name for the first component
   * of a path: the name equals the component, or (for a name that itself
   * holds a '/') the name's first component equals it and both continue
   * with '/'.
   */
  predicate DentMatch(path: seq<u8>, name: seq<u8>) {
    var c := Component(path);
    c == CStr(name)
    || (c == Component(name) && CharAt(path, |c|) == SLASH && CharAt(name, |c|) == SLASH)
  }

  /** For a name without '/' (every well-formed entry), DentMatch is plain equality. */
  lemma DentMatchPlainName(path: seq<u8>, name: seq<u8>)
    requires forall k :: 0 <= k < StrEnd(name, 0) ==> CharAt(name, k) != SLASH
    ensures DentMatch(path, name) <==> Component(path) == CStr(name)
  {
    var ne := ComponentEnd(name, 0);
    // the name's first component ends at its NUL, never at a '/'
    assert StrEnd(name, 0) <= ne;
  }

  /**
   * strcmp_dent compares the first component of a path with a directory
   * entry's name; the result is 0 exactly when DentMatch holds.
   */
  method StrcmpDent(path: seq<u8>, name: seq<u8>) returns (r: int)
    ensures r == 0 <==> DentMatch(path, name)
  {
    var i := 0;
    while CharAt(path, i) != NUL && CharAt(path, i) != SLASH && CharAt(path, i) == CharAt(name, i)
      invariant forall k :: 0 <= k < i ==>
        CharAt(path, k) != NUL && CharAt(path, k) != SLASH && CharAt(path, k) == CharAt(name, k)
      decreases |path| - i
    {
      i := i + 1;
    }
    var ce := ComponentEnd(path, 0);
    var se := StrEnd(name, 0);
    var ne := ComponentEnd(name, 0);
    if CharAt(path, i) == SLASH && CharAt(name, i) == NUL {
      FirstEnd(path, ce, c => c == NUL || c == SLASH, i);
      FirstEnd(name, se, c => c == NUL, i);
      assert Component(path) == CStr(name);
      r := 0;
    } else {
      r := SChar(CharAt(path, i)) - SChar(CharAt(name, i));
      if CharAt(path, i) == CharAt(name, i) {
        FirstEnd(path, ce, c => c == NUL || c == SLASH, i);
        FirstEnd(name, ne, c => c == NUL || c == SLASH, i);
        if CharAt(path, i) == NUL {
          FirstEnd(name, se, c => c == NUL, i);
          assert Component(path) == CStr(name);
        } else {
          assert Component(path) == Component(name);
        }
      } else {
        if i < ce {
          // the path continues, so the name differs inside the component
          assert i < se ==> CStr(name)[i] != Component(path)[i];
          assert i < ne ==> Component(name)[i] != Component(path)[i];
          assert se <= i ==> se != ce;
          assert ne <= i ==> ne != ce;
        } else {
          FirstEnd(path, ce, c => c == NUL || c == SLASH, i);
          assert i < se ==> se != ce;
          assert se <= i ==> se == i;
        }
      }
    }
  }
}
