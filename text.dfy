/** Python string operations the host scripts and the firmware rely on:
    `str.strip()`, `str.startswith`, the substring test `p in s` and
    slicing with clamped bounds. */
module Text {

  datatype Option<T> = None | Some(value: T)

  function Min(a: int, b: int): int { if a <= b then a else b }

  /** The characters MicroPython's `str.strip()` removes: space, and tab,
      line feed, vertical tab, form feed and carriage return (code points 9
      to 13). CPython's `strip()` on the hosts also removes code points 28
      to 31 and the other Unicode whitespace. */
  predicate IsSpace(c: char) {
    c == ' ' || 9 <= c as int <= 13
  }

  /** `s.lstrip()`: drops the longest all-whitespace prefix. */
  function TrimStart(s: string): (r: string)
    ensures |r| <= |s|
    ensures r == [] || !IsSpace(r[0])
  {
    if s != [] && IsSpace(s[0]) then TrimStart(s[1..]) else s
  }

  /** `s.rstrip()`: drops the longest all-whitespace suffix. */
  function TrimEnd(s: string): (r: string)
    ensures |r| <= |s|
    ensures r == [] || !IsSpace(r[|r| - 1])
  {
    if s != [] && IsSpace(s[|s| - 1]) then TrimEnd(s[..|s| - 1]) else s
  }

  /** `s.strip()`. */
  function Strip(s: string): (r: string)
    ensures |r| <= |s|
  {
    TrimEnd(TrimStart(s))
  }

  /** `lstrip` keeps a suffix of `s` and what it removes is whitespace. */
  lemma {:induction false} TrimStartSlice(s: string)
    ensures TrimStart(s) == s[|s| - |TrimStart(s)|..]
    ensures forall k :: 0 <= k < |s| - |TrimStart(s)| ==> IsSpace(s[k])
  {
    if s != [] && IsSpace(s[0]) {
      TrimStartSlice(s[1..]);
    }
  }

  /** `rstrip` keeps a prefix of `s` and what it removes is whitespace. */
  lemma {:induction false} TrimEndSlice(s: string)
    ensures TrimEnd(s) == s[..|TrimEnd(s)|]
    ensures forall k :: |TrimEnd(s)| <= k < |s| ==> IsSpace(s[k])
  {
    if s != [] && IsSpace(s[|s| - 1]) {
      TrimEndSlice(s[..|s| - 1]);
    }
  }

  /** `r` is `s[lo..lo + |r|]`, and everything outside that slice is
      whitespace. */
  predicate StripsAt(s: string, lo: int, r: string) {
    && 0 <= lo <= lo + |r| <= |s|
    && r == s[lo..lo + |r|]
    && (forall k :: 0 <= k < lo ==> IsSpace(s[k]))
    && (forall k :: lo + |r| <= k < |s| ==> IsSpace(s[k]))
  }

  /** `strip` keeps a slice of `s` that neither starts nor ends with
      whitespace and cuts off only whitespace on either side; so it yields
      the empty string exactly for all-whitespace input. */
  lemma StripSlice(s: string)
    ensures exists lo :: StripsAt(s, lo, Strip(s))
    ensures var r := Strip(s); r == [] || (!IsSpace(r[0]) && !IsSpace(r[|r| - 1]))
    ensures Strip(s) == [] <==> forall k :: 0 <= k < |s| ==> IsSpace(s[k])
  {
    var t := TrimStart(s);
    var lo := |s| - |t|;
    TrimStartSlice(s);
    TrimEndSlice(t);
    var r := Strip(s);
    assert r == t[..|r|];
    assert forall k :: lo <= k < |s| ==> s[k] == t[k - lo];
    assert StripsAt(s, lo, r);
  }

  /** A line without whitespace at either end, followed by a line feed, strips
      back to itself: the way the receiving side sees one written line. */
  lemma StripLine(s: string)
    requires s == [] || (!IsSpace(s[0]) && !IsSpace(s[|s| - 1]))
    ensures Strip(s + "\n") == s
  {
    var t := TrimStart(s + "\n");
    if s == [] {
      assert TrimStart("\n") == TrimStart([]);
    } else {
      assert t == s + "\n";
      assert TrimEnd(t) == TrimEnd(s);
    }
  }

  predicate StartsWith(s: string, p: string) {
    |p| <= |s| && s[..|p|] == p
  }

  /** Python's substring test `p in s`. */
  predicate Contains(s: string, p: string)
    decreases |s|
  {
    StartsWith(s, p) || (s != [] && Contains(s[1..], p))
  }

  predicate OccursAt(s: string, p: string, k: int) {
    0 <= k <= |s| - |p| && s[k..k + |p|] == p
  }

  /** `p in s` holds exactly when `p` occurs at some offset of `s`. */
  lemma {:induction false} ContainsAt(s: string, p: string)
    ensures Contains(s, p) <==> exists k :: OccursAt(s, p, k)
  {
    if s == [] {
      if StartsWith(s, p) { assert OccursAt(s, p, 0); }
    } else {
      ContainsAt(s[1..], p);
      if StartsWith(s, p) {
        assert OccursAt(s, p, 0);
      } else if Contains(s[1..], p) {
        var k :| OccursAt(s[1..], p, k);
        assert s[k + 1..k + 1 + |p|] == s[1..][k..k + |p|];
        assert OccursAt(s, p, k + 1);
      }
      if k :| OccursAt(s, p, k) {
        if k > 0 {
          assert s[1..][k - 1..k - 1 + |p|] == s[k..k + |p|];
          assert OccursAt(s[1..], p, k - 1);
        }
      }
    }
  }

  /** A pattern whose character `j` never occurs in `s` at an offset of `j`
      or more is not contained in `s`. */
  lemma {:induction false} NotContainsWithout(s: string, p: string, j: nat)
    requires j < |p| && forall k :: j <= k < |s| ==> s[k] != p[j]
    ensures !Contains(s, p)
  {
    if s != [] {
      if |p| <= |s| {
        assert s[..|p|][j] != p[j];
      }
      NotContainsWithout(s[1..], p, j);
    }
  }

  /** Python slicing `s[lo:hi]` for `0 <= lo`: both bounds are clamped to the
      length, and an empty slice results when `hi <= lo`. */
  function PySlice<T>(s: seq<T>, lo: nat, hi: nat): (r: seq<T>)
    ensures lo <= |s| ==> r == s[lo..Min(|s|, if hi < lo then lo else hi)]
    ensures lo >= |s| ==> r == []
    ensures |r| <= |s| && (lo <= hi ==> |r| <= hi - lo)
    ensures forall k :: 0 <= k < |r| ==> lo + k < |s| && r[k] == s[lo + k]
  {
    var a := Min(lo, |s|);
    var b := Min(hi, |s|);
    if b <= a then [] else s[a..b]
  }

  /** The concatenation of `f` applied to each element, in order. */
  function Expand<T>(xs: seq<T>, f: T -> string): string {
    if xs == [] then [] else f(xs[0]) + Expand(xs[1..], f)
  }

  lemma {:induction false} ExpandAppend<T>(a: seq<T>, b: seq<T>, f: T -> string)
    ensures Expand(a + b, f) == Expand(a, f) + Expand(b, f)
  {
    if a == [] {
      assert a + b == b;
    } else {
      assert (a + b)[0] == a[0] && (a + b)[1..] == a[1..] + b;
      ExpandAppend(a[1..], b, f);
    }
  }

  /** The pieces of `ss` joined in order. */
  function Concat<T>(ss: seq<seq<T>>): seq<T> {
    if ss == [] then [] else ss[0] + Concat(ss[1..])
  }

  lemma {:induction false} ConcatAppend<T>(a: seq<seq<T>>, b: seq<seq<T>>)
    ensures Concat(a + b) == Concat(a) + Concat(b)
  {
    if a == [] {
      assert a + b == b;
    } else {
      assert (a + b)[0] == a[0] && (a + b)[1..] == a[1..] + b;
      ConcatAppend(a[1..], b);
    }
  }

  lemma TakeDrop<T>(s: seq<T>, n: nat)
    requires n <= |s|
    ensures s[..n] + s[n..] == s
  {
  }
}
