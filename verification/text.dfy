/** Strings as the catalog code sees them: Python's whitespace stripping,
    ASCII case folding and literal substring search. */
module Text {

  /** The characters Python's `str.isspace` accepts, i.e. the ones `str.strip()` removes. */
  predicate IsSpace(c: char) {
    || c == ' '
    || ('\t' <= c <= '\r')
    || ('\U{1C}' <= c <= '\U{1F}')
    || c == '\U{85}' || c == '\U{A0}' || c == '\U{1680}'
    || ('\U{2000}' <= c <= '\U{200A}')
    || c == '\U{2028}' || c == '\U{2029}' || c == '\U{202F}' || c == '\U{205F}' || c == '\U{3000}'
  }

  predicate AllSpace(s: string) {
    forall i :: 0 <= i < |s| ==> IsSpace(s[i])
  }

  /** No whitespace at either end. */
  predicate Trimmed(s: string) {
    |s| == 0 || (!IsSpace(s[0]) && !IsSpace(s[|s| - 1]))
  }

  /** `str.lstrip()`: the suffix left after dropping leading whitespace. */
  function StripLeft(s: string): (r: string)
    ensures |r| <= |s| && r == s[|s| - |r|..]
    ensures forall k :: 0 <= k < |s| - |r| ==> IsSpace(s[k])
    ensures |r| == 0 || !IsSpace(r[0])
  {
    if |s| > 0 && IsSpace(s[0]) then StripLeft(s[1..]) else s
  }

  /** `str.rstrip()`: the prefix left after dropping trailing whitespace. */
  function StripRight(s: string): (r: string)
    ensures |r| <= |s| && r == s[..|r|]
    ensures forall k :: |r| <= k < |s| ==> IsSpace(s[k])
    ensures |r| == 0 || !IsSpace(r[|r| - 1])
  {
    if |s| > 0 && IsSpace(s[|s| - 1]) then StripRight(s[..|s| - 1]) else s
  }

  /** `str.strip()`: the infix of `s` left after dropping whitespace at both ends. */
  function Strip(s: string): (r: string)
    ensures Trimmed(r) && |r| <= |s|
  {
    StripRight(StripLeft(s))
  }

  /** `r` sits at offset `i` of `s` with nothing but whitespace around it. */
  predicate PaddedAt(s: string, i: int, r: string) {
    && 0 <= i <= |s| - |r|
    && s[i..i + |r|] == r
    && (forall k :: 0 <= k < i ==> IsSpace(s[k]))
    && (forall k :: i + |r| <= k < |s| ==> IsSpace(s[k]))
  }

  lemma SuffixPrefix(s: string, i: nat, n: nat)
    requires i + n <= |s|
    ensures s[i..][..n] == s[i..i + n]
  {
  }

  /** What `Strip` removes is whitespace only: the result is an infix of the
      input with nothing but whitespace on either side of it. */
  lemma StripIsInfix(s: string)
    ensures exists i :: PaddedAt(s, i, Strip(s))
  {
    var l := StripLeft(s);
    var r := StripRight(l);
    var i := |s| - |l|;
    SuffixPrefix(s, i, |r|);
    forall k | i + |r| <= k < |s|
      ensures IsSpace(s[k])
    {
      assert s[k] == l[k - i];
    }
    assert r == Strip(s);
    assert PaddedAt(s, i, Strip(s));
  }

  lemma {:induction false} StripLeftPadded(p: string, x: string)
    requires AllSpace(p)
    ensures StripLeft(p + x) == StripLeft(x)
    decreases |p|
  {
    if |p| > 0 {
      assert (p + x)[1..] == p[1..] + x;
      StripLeftPadded(p[1..], x);
    } else {
      assert p + x == x;
    }
  }

  lemma {:induction false} StripRightPadded(x: string, q: string)
    requires AllSpace(q)
    ensures StripRight(x + q) == StripRight(x)
    decreases |q|
  {
    if |q| > 0 {
      assert (x + q)[..|x + q| - 1] == x + q[..|q| - 1];
      StripRightPadded(x, q[..|q| - 1]);
    } else {
      assert x + q == x;
    }
  }

  /** Stripping is determined by the trimmed core: surrounding `t` with any
      whitespace and stripping gives `t` back. Together with `Strip`'s own
      contract this pins the function down completely. */
  lemma StripPadded(p: string, t: string, q: string)
    requires AllSpace(p) && AllSpace(q) && Trimmed(t)
    ensures Strip(p + t + q) == t
  {
    assert p + t + q == p + (t + q);
    StripLeftPadded(p, t + q);
    var l := StripLeft(t + q);
    if |t| == 0 {
      assert t + q == q + [];
      StripLeftPadded(q, []);
      assert l == [];
    } else {
      assert (t + q)[0] == t[0];
      assert l == t + q;
      StripRightPadded(t, q);
      assert StripRight(t) == t;
    }
  }

  /** Text without surrounding whitespace strips to itself. */
  lemma StripTrimmed(t: string)
    requires Trimmed(t)
    ensures Strip(t) == t
  {
    StripPadded([], t, []);
    assert [] + t + [] == t;
  }

  /** Stripping twice is stripping once. */
  lemma StripIdempotent(s: string)
    ensures Strip(Strip(s)) == Strip(s)
  {
    var t := Strip(s);
    assert AllSpace([]);
    StripPadded([], t, []);
    assert [] + t + [] == t;
  }

  /** The stripped text is empty exactly when the input is all whitespace. */
  lemma StripEmptyIff(s: string)
    ensures Strip(s) == "" <==> AllSpace(s)
  {
    if AllSpace(s) {
      StripPadded(s, "", []);
      assert s + "" + [] == s;
    }
  }

  /** ASCII lower-casing of one character (case folding outside ASCII is not modelled). */
  function LowerChar(c: char): char {
    if 'A' <= c <= 'Z' then (c as int + 32) as char else c
  }

  function Lower(s: string): (r: string)
    ensures |r| == |s|
  {
    seq(|s|, i requires 0 <= i < |s| => LowerChar(s[i]))
  }

  /** `needle` occurs in `hay` starting at position `i`. */
  predicate OccursAt(hay: string, needle: string, i: int) {
    0 <= i <= |hay| - |needle| && hay[i..i + |needle|] == needle
  }

  /** `needle` occurs in `hay` as a contiguous run of characters. The bounds
      on `i` repeat those of `OccursAt` so that the quantifier is compilable. */
  predicate Contains(hay: string, needle: string) {
    exists i :: 0 <= i <= |hay| - |needle| && OccursAt(hay, needle, i)
  }

  /** Case-insensitive literal substring search, the shape of pandas'
      `str.contains(q, case=False)` without its regular-expression reading. */
  predicate ContainsIgnoringCase(hay: string, needle: string) {
    Contains(Lower(hay), Lower(needle))
  }
}
