/** The C-string view that the delimiter check in read_until works with:
    the scratch copy of the accumulated bytes and the needle are both read
    as NUL-terminated strings, and strstr looks for the one in the other.
 */
module CStrings {

  datatype Option<T> = None | Some(value: T)

  /** The bytes of `s` up to, not including, its first zero byte (all of
      `s` when it holds no zero byte). */
  function CStr(s: seq<bv8>): seq<bv8>
  {
    if |s| == 0 || s[0] == 0 then [] else [s[0]] + CStr(s[1..])
  }

  /** CStr(s) is the longest prefix of `s` without a zero byte: a prefix,
      free of zero bytes, and followed in `s` by a zero byte unless it is
      all of `s`. */
  lemma {:induction false} CStrSpec(s: seq<bv8>)
    ensures CStr(s) <= s
    ensures forall i :: 0 <= i < |CStr(s)| ==> CStr(s)[i] != 0
    ensures |CStr(s)| < |s| ==> s[|CStr(s)|] == 0
  {
    if |s| > 0 && s[0] != 0 {
      CStrSpec(s[1..]);
      assert CStr(s) == [s[0]] + CStr(s[1..]);
    }
  }

  /** `nd` occurs in `hay` starting at index `i`. */
  ghost predicate MatchAt(hay: seq<bv8>, nd: seq<bv8>, i: int)
  {
    0 <= i && i + |nd| <= |hay| && hay[i..i + |nd|] == nd
  }

  /** `nd` occurs somewhere in `hay`: the reference meaning of a substring search. */
  ghost predicate Occurs(hay: seq<bv8>, nd: seq<bv8>)
  {
    exists i :: MatchAt(hay, nd, i)
  }

  /** The first index at or after `from` where `nd` occurs in `hay`, scanning
      left to right as strstr does. */
  function IndexFrom(hay: seq<bv8>, nd: seq<bv8>, from: nat): Option<nat>
    requires from <= |hay|
    decreases |hay| - from
  {
    if |hay| - from < |nd| then None
    else if hay[from..from + |nd|] == nd then Some(from)
    else if from == |hay| then None
    else IndexFrom(hay, nd, from + 1)
  }

  /** IndexFrom finds the first occurrence at or after `from`, and finds
      none exactly when there is none. */
  lemma {:induction false} IndexFromSpec(hay: seq<bv8>, nd: seq<bv8>, from: nat)
    requires from <= |hay|
    ensures var r := IndexFrom(hay, nd, from);
      r.Some? ==> from <= r.value && MatchAt(hay, nd, r.value)
    ensures var r := IndexFrom(hay, nd, from);
      r.Some? ==> forall j :: from <= j < r.value ==> !MatchAt(hay, nd, j)
    ensures IndexFrom(hay, nd, from).None? ==> forall j :: from <= j ==> !MatchAt(hay, nd, j)
    decreases |hay| - from
  {
    if |hay| - from >= |nd| && hay[from..from + |nd|] != nd && from < |hay| {
      IndexFromSpec(hay, nd, from + 1);
    }
  }

  /** strstr(hay, nd) as an index into `hay`. */
  function StrStr(hay: seq<bv8>, nd: seq<bv8>): Option<nat>
  {
    IndexFrom(hay, nd, 0)
  }

  /** strstr finds a match exactly when the needle occurs, and then the
      first one. */
  lemma StrStrSpec(hay: seq<bv8>, nd: seq<bv8>)
    ensures StrStr(hay, nd).Some? <==> Occurs(hay, nd)
    ensures StrStr(hay, nd).Some? ==> MatchAt(hay, nd, StrStr(hay, nd).value)
    ensures StrStr(hay, nd).Some? ==> forall j :: 0 <= j < StrStr(hay, nd).value ==> !MatchAt(hay, nd, j)
  {
    IndexFromSpec(hay, nd, 0);
  }

  /** The check read_until runs after every read: the accumulated bytes,
      copied and NUL-terminated, contain the needle read as a C string. */
  function Found(prefix: seq<bv8>, needle: seq<bv8>): bool
  {
    StrStr(CStr(prefix), CStr(needle)).Some?
  }

  /** What the check means: the needle, up to its first zero byte, occurs
      in the accumulated bytes up to their first zero byte. */
  lemma FoundSpec(prefix: seq<bv8>, needle: seq<bv8>)
    ensures Found(prefix, needle) <==> Occurs(CStr(prefix), CStr(needle))
  {
    StrStrSpec(CStr(prefix), CStr(needle));
  }

  /** An empty needle, or one that starts with a zero byte, is found in
      every prefix, even the empty one. */
  lemma EmptyNeedleFound(prefix: seq<bv8>, needle: seq<bv8>)
    requires needle == [] || needle[0] == 0
    ensures Found(prefix, needle)
  {
    assert MatchAt(CStr(prefix), CStr(needle), 0);
    FoundSpec(prefix, needle);
  }

  /** The C-string view of a prefix is a prefix of the C-string view of any
      extension. */
  lemma {:induction false} CStrMonotone(p: seq<bv8>, q: seq<bv8>)
    ensures CStr(p) <= CStr(p + q)
  {
    if |p| > 0 && p[0] != 0 {
      assert (p + q)[1..] == p[1..] + q;
      CStrMonotone(p[1..], q);
    }
  }

  /** Once the needle is found in the accumulated bytes, it stays found
      however many bytes are appended. */
  lemma FoundMonotone(p: seq<bv8>, q: seq<bv8>, needle: seq<bv8>)
    requires Found(p, needle)
    ensures Found(p + q, needle)
  {
    var nd := CStr(needle);
    FoundSpec(p, needle);
    var i :| MatchAt(CStr(p), nd, i);
    CStrMonotone(p, q);
    assert CStr(p + q)[i..i + |nd|] == CStr(p)[i..i + |nd|];
    assert MatchAt(CStr(p + q), nd, i);
    FoundSpec(p + q, needle);
  }

  /** A needle that occurs in the bytes is found whenever no zero byte
      comes before that occurrence and the needle itself holds no zero byte. */
  lemma FoundWithoutNul(prefix: seq<bv8>, needle: seq<bv8>, i: nat)
    requires MatchAt(prefix, needle, i)
    requires forall j :: 0 <= j < i + |needle| ==> prefix[j] != 0
    ensures Found(prefix, needle)
  {
    CStrNoNul(needle);
    CStrSpec(prefix);
    var c := CStr(prefix);
    assert |c| >= i + |needle|;
    assert c[i..i + |needle|] == prefix[i..i + |needle|];
    assert MatchAt(c, CStr(needle), i);
    FoundSpec(prefix, needle);
  }

  lemma {:induction false} CStrNoNul(s: seq<bv8>)
    requires forall j :: 0 <= j < |s| ==> s[j] != 0
    ensures CStr(s) == s
  {
    if |s| > 0 {
      CStrNoNul(s[1..]);
    }
  }

  /** Bytes after a zero byte are invisible to the C-string view. */
  lemma {:induction false} CStrCut(p: seq<bv8>, rest: seq<bv8>)
    ensures CStr(p + [0] + rest) == CStr(p)
  {
    if |p| > 0 && p[0] != 0 {
      assert (p + [0] + rest)[1..] == p[1..] + [0] + rest;
      CStrCut(p[1..], rest);
    }
  }

  /** The limitation the NUL-terminated scratch copy causes: whatever
      follows a zero byte in the accumulated bytes has no effect on the
      check, so a needle that occurs only there is missed. */
  lemma NulHidesNeedle(p: seq<bv8>, rest: seq<bv8>, needle: seq<bv8>)
    ensures Found(p + [0] + rest, needle) == Found(p, needle)
  {
    CStrCut(p, rest);
  }
}
