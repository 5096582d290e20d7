/**
 Python's `str.strip()` without arguments: removing the leading and trailing
 runs of the characters `str.isspace` accepts.
 */
module Strings {
  /** The characters Python's `str.strip()` removes (`str.isspace`). */
  predicate IsSpace(c: char) {
    var n := c as int;
    || (0x09 <= n <= 0x0D) || (0x1C <= n <= 0x20) || n == 0x85 || n == 0xA0
    || n == 0x1680 || (0x2000 <= n <= 0x200A) || n == 0x2028 || n == 0x2029
    || n == 0x202F || n == 0x205F || n == 0x3000
  }

  /** Neither starts nor ends with whitespace. */
  predicate Bare(s: string) {
    s == [] || (!IsSpace(s[0]) && !IsSpace(s[|s| - 1]))
  }

  function StripLeft(s: string): (r: string)
    ensures |r| <= |s| && r == s[|s| - |r|..]
    ensures forall k :: 0 <= k < |s| - |r| ==> IsSpace(s[k])
    ensures r == [] || !IsSpace(r[0])
  {
    if s != [] && IsSpace(s[0]) then StripLeft(s[1..]) else s
  }

  function StripRight(s: string): (r: string)
    ensures |r| <= |s| && r == s[..|r|]
    ensures forall k :: |r| <= k < |s| ==> IsSpace(s[k])
    ensures r == [] || !IsSpace(r[|r| - 1])
  {
    if s != [] && IsSpace(s[|s| - 1]) then StripRight(s[..|s| - 1]) else s
  }

  /** `s` is `r` starting at offset `i`, with only whitespace around it. */
  ghost predicate PaddedAt(s: string, r: string, i: int) {
    && 0 <= i && i + |r| <= |s| && r == s[i..i + |r|]
    && (forall k :: 0 <= k < i ==> IsSpace(s[k]))
    && (forall k :: i + |r| <= k < |s| ==> IsSpace(s[k]))
  }

  /** Stripping the right end of what `StripLeft` left yields a bare middle
      part of `s` with only whitespace around it. */
  lemma StripParts(s: string, l: string, r: string)
    requires |l| <= |s| && l == s[|s| - |l|..]
    requires forall k :: 0 <= k < |s| - |l| ==> IsSpace(s[k])
    requires l == [] || !IsSpace(l[0])
    requires |r| <= |l| && r == l[..|r|]
    requires forall k :: |r| <= k < |l| ==> IsSpace(l[k])
    requires r == [] || !IsSpace(r[|r| - 1])
    ensures Bare(r) && PaddedAt(s, r, |s| - |l|)
  {
    var i := |s| - |l|;
    if r != [] {
      assert r[0] == l[0];
    }
    assert s[i..i + |r|] == l[..|r|];
    forall k | i + |r| <= k < |s|
      ensures IsSpace(s[k])
    {
      assert s[k] == l[k - i];
    }
  }

  /** `str.strip()`: `r` is bare and `s` is `r` with whitespace only around
      it, the leading run being everything `StripLeft` removes. */
  function Strip(s: string): (r: string)
    ensures Bare(r)
    ensures PaddedAt(s, r, |s| - |StripLeft(s)|)
  {
    var l := StripLeft(s);
    var r := StripRight(l);
    StripParts(s, l, r);
    r
  }

  /** A string that is already bare is left alone. */
  lemma StripBare(s: string)
    requires Bare(s)
    ensures Strip(s) == s
  {
  }

  /** A single leading space around a bare name is stripped away. */
  lemma StripLeadingSpace(name: string)
    requires name != [] && Bare(name)
    ensures Strip([' '] + name) == name
  {
    var s := [' '] + name;
    assert s[1..] == name;
    assert StripLeft(s) == StripLeft(name);
    StripBare(name);
  }

  /** A single trailing space after a bare name is stripped away. */
  lemma StripTrailingSpace(name: string)
    requires name != [] && Bare(name)
    ensures Strip(name + [' ']) == name
  {
    var s := name + [' '];
    assert s[0] == name[0] && !IsSpace(s[0]);
    assert StripLeft(s) == s;
    assert s[..|s| - 1] == name && IsSpace(s[|s| - 1]);
    assert StripRight(s) == StripRight(name);
    assert StripRight(name) == name;
  }
}
