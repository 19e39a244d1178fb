/** ASCII text as bytes: `trim`, `to_ascii_lowercase`, prefixes and suffixes. */
module Ascii {
  import opened Prelude

  const DOT: byte := 46
  const STAR: byte := 42
  /** The text "default". */
  const DEFAULT: Bytes := [100, 101, 102, 97, 117, 108, 116]

  predicate IsAscii(t: Bytes) {
    forall i :: 0 <= i < |t| ==> t[i] < 128
  }

  predicate IsSpace(c: byte) {
    c == 32 || 9 <= c <= 13
  }

  function TrimStart(t: Bytes): Bytes {
    if t != [] && IsSpace(t[0]) then TrimStart(t[1..]) else t
  }

  function TrimEnd(t: Bytes): Bytes {
    if t != [] && IsSpace(t[|t| - 1]) then TrimEnd(t[..|t| - 1]) else t
  }

  function Trim(t: Bytes): Bytes {
    TrimEnd(TrimStart(t))
  }

  predicate Trimmed(t: Bytes) {
    t == [] || (!IsSpace(t[0]) && !IsSpace(t[|t| - 1]))
  }

  lemma TrimFixed(t: Bytes)
    requires Trimmed(t)
    ensures Trim(t) == t
  {
  }

  lemma {:induction false} TrimStartDone(t: Bytes)
    ensures TrimStart(t) != [] ==> !IsSpace(TrimStart(t)[0])
  {
    if t != [] && IsSpace(t[0]) {
      TrimStartDone(t[1..]);
    }
  }

  lemma {:induction false} TrimEndDone(t: Bytes)
    ensures var r := TrimEnd(t); r <= t && (r != [] ==> !IsSpace(r[|r| - 1]))
  {
    if t != [] && IsSpace(t[|t| - 1]) {
      TrimEndDone(t[..|t| - 1]);
    }
  }

  lemma TrimTrims(t: Bytes)
    ensures Trimmed(Trim(t)) && Trim(Trim(t)) == Trim(t)
  {
    TrimStartDone(t);
    TrimEndDone(TrimStart(t));
    TrimFixed(Trim(t));
  }

  predicate Blank(t: Bytes) {
    t == [] || (IsSpace(t[0]) && Blank(t[1..]))
  }

  /** White space around a text is trimmed away. */
  lemma TrimPadded(a: Bytes, t: Bytes, b: Bytes)
    requires Blank(a) && Trimmed(t) && t != [] && Blank(b)
    ensures Trim(a + t + b) == t
  {
    StartPadded(a, t + b);
    assert a + t + b == a + (t + b);
    EndPadded(t, b);
  }

  lemma {:induction false} StartPadded(a: Bytes, t: Bytes)
    requires Blank(a) && t != [] && !IsSpace(t[0])
    ensures TrimStart(a + t) == t
  {
    if a == [] {
      assert a + t == t;
    } else {
      assert (a + t)[1..] == a[1..] + t;
      StartPadded(a[1..], t);
    }
  }

  lemma {:induction false} EndPadded(t: Bytes, b: Bytes)
    requires t != [] && !IsSpace(t[|t| - 1]) && Blank(b)
    ensures TrimEnd(t + b) == t
  {
    if b == [] {
      assert t + b == t;
    } else {
      var n := |b| - 1;
      BlankFront(b);
      assert (t + b)[..|t| + n] == t + b[..n];
      EndPadded(t, b[..n]);
    }
  }

  lemma {:induction false} BlankFront(b: Bytes)
    requires Blank(b) && b != []
    ensures Blank(b[..|b| - 1]) && IsSpace(b[|b| - 1])
  {
    if |b| == 1 {
    } else {
      BlankFront(b[1..]);
      assert b[1..][..|b| - 2] == b[..|b| - 1][1..];
    }
  }

  function LowerChar(c: byte): byte {
    if 65 <= c <= 90 then c + 32 else c
  }

  function Lower(t: Bytes): (r: Bytes)
    ensures |r| == |t|
  {
    seq(|t|, i requires 0 <= i < |t| => LowerChar(t[i]))
  }

  /** Two texts are equal in lower case exactly when they differ at most in the case of the letters A to Z. */
  lemma LowerEqual(a: Bytes, b: Bytes)
    requires |a| == |b|
    ensures Lower(a) == Lower(b) <==> forall i :: 0 <= i < |a| ==> SameLetter(a[i], b[i])
  {
    if Lower(a) == Lower(b) {
      forall i | 0 <= i < |a|
        ensures SameLetter(a[i], b[i])
      {
        assert Lower(a)[i] == Lower(b)[i];
      }
    }
  }

  predicate SameLetter(c: byte, d: byte) {
    c == d || ('A' <= c as char <= 'Z' && c as int + 32 == d) || ('A' <= d as char <= 'Z' && d as int + 32 == c)
  }

  predicate StartsWith(t: Bytes, p: Bytes) {
    p <= t
  }

  predicate EndsWith(t: Bytes, p: Bytes) {
    |p| <= |t| && t[|t| - |p|..] == p
  }
}
