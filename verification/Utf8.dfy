/** Validity of UTF-8 text, byte by byte (table 3-7 of the Unicode Standard), as `str::from_utf8` decides it. */
module Utf8 {
  import opened Prelude

  /** What may come next: a new character, so many continuation bytes, or a second byte from a narrower range. */
  datatype State = Boundary | More(n: nat) | AfterE0 | AfterED | AfterF0 | AfterF4 | Broken

  predicate Continues(c: byte) {
    0x80 <= c <= 0xBF
  }

  function Next(s: State, c: byte): State {
    match s
    case Boundary =>
      if c <= 0x7F then Boundary
      else if 0xC2 <= c <= 0xDF then More(1)
      else if c == 0xE0 then AfterE0
      else if c == 0xED then AfterED
      else if 0xE1 <= c <= 0xEF then More(2)
      else if c == 0xF0 then AfterF0
      else if 0xF1 <= c <= 0xF3 then More(3)
      else if c == 0xF4 then AfterF4
      else Broken
    case More(n) => if !Continues(c) || n == 0 then Broken else if n == 1 then Boundary else More(n - 1)
    case AfterE0 => if 0xA0 <= c <= 0xBF then More(1) else Broken
    case AfterED => if 0x80 <= c <= 0x9F then More(1) else Broken
    case AfterF0 => if 0x90 <= c <= 0xBF then More(2) else Broken
    case AfterF4 => if 0x80 <= c <= 0x8F then More(2) else Broken
    case Broken => Broken
  }

  function Read(s: State, t: Bytes): State
    decreases |t|
  {
    if t == [] then s else Read(Next(s, t[0]), t[1..])
  }

  predicate Valid(t: Bytes) {
    Read(Boundary, t) == Boundary
  }

  /** How many bytes the character begun still takes; none can mend a broken text. */
  function Missing(s: State): Option<nat> {
    match s
    case Boundary => Some(0)
    case More(n) => if n == 0 then None else Some(n)
    case AfterE0 => Some(2)
    case AfterED => Some(2)
    case AfterF0 => Some(3)
    case AfterF4 => Some(3)
    case Broken => None
  }

  lemma {:induction false} ReadConcat(s: State, a: Bytes, b: Bytes)
    ensures Read(s, a + b) == Read(Read(s, a), b)
    decreases |a|
  {
    if a == [] {
      assert a + b == b;
    } else {
      assert (a + b)[1..] == a[1..] + b;
      ReadConcat(Next(s, a[0]), a[1..], b);
    }
  }

  lemma {:induction false} MissingIsNeeded(s: State, t: Bytes)
    requires Read(s, t) == Boundary
    ensures Missing(s).Some? && Missing(s).value <= |t|
    decreases |t|
  {
    if t == [] {
    } else {
      MissingIsNeeded(Next(s, t[0]), t[1..]);
    }
  }

  /** Some text of `n` bytes that ends the character begun, followed by plain ASCII. */
  lemma {:induction false} MissingIsEnough(s: State, n: nat) returns (t: Bytes)
    requires Missing(s).Some? && Missing(s).value <= n
    ensures |t| == n && Read(s, t) == Boundary
    decreases n
  {
    if n == 0 {
      t := [];
    } else {
      var c: byte := match s case Boundary => 0 case AfterE0 => 0xA0 case AfterF0 => 0x90 case _ => 0x80;
      var rest := MissingIsEnough(Next(s, c), n - 1);
      t := [c] + rest;
      assert t[1..] == rest;
    }
  }

  /** The beginning of a text can be completed to a valid one of `n` bytes. */
  predicate Completable(begun: Bytes, n: nat)
    requires |begun| <= n
  {
    var m := Missing(Read(Boundary, begun));
    m.Some? && m.value <= n - |begun|
  }

  lemma CompletableIff(begun: Bytes, n: nat)
    requires |begun| <= n
    ensures Completable(begun, n) <==> exists t: Bytes :: |t| == n - |begun| && Valid(begun + t)
  {
    var s := Read(Boundary, begun);
    if Completable(begun, n) {
      var t := MissingIsEnough(s, n - |begun|);
      ReadConcat(Boundary, begun, t);
    }
    if t: Bytes :| |t| == n - |begun| && Valid(begun + t) {
      ReadConcat(Boundary, begun, t);
      MissingIsNeeded(s, t);
    }
  }

  // ---- Valid text is text that encodes characters ----

  predicate Scalar(u: nat) {
    u < 0xD800 || 0xE000 <= u < 0x11_0000
  }

  function Encode(u: nat): Bytes
    requires Scalar(u)
  {
    if u < 0x80 then [u]
    else if u < 0x800 then [0xC0 + u / 64, 0x80 + u % 64]
    else if u < 0x1_0000 then [0xE0 + u / 64 / 64, 0x80 + u / 64 % 64, 0x80 + u % 64]
    else [0xF0 + u / 64 / 64 / 64, 0x80 + u / 64 / 64 % 64, 0x80 + u / 64 % 64, 0x80 + u % 64]
  }

  predicate AllScalar(us: seq<nat>) {
    us == [] || (Scalar(us[0]) && AllScalar(us[1..]))
  }

  function EncodeAll(us: seq<nat>): Bytes
    requires AllScalar(us)
  {
    if us == [] then [] else Encode(us[0]) + EncodeAll(us[1..])
  }

  lemma ReadOne(s: State, a: byte)
    ensures Read(s, [a]) == Next(s, a)
  {
  }

  lemma ReadTwo(s: State, a: byte, b: byte)
    ensures Read(s, [a, b]) == Next(Next(s, a), b)
  {
    assert [a, b][1..] == [b];
    ReadOne(Next(s, a), b);
  }

  lemma ReadThree(s: State, a: byte, b: byte, c: byte)
    ensures Read(s, [a, b, c]) == Next(Next(Next(s, a), b), c)
  {
    assert [a, b, c][1..] == [b, c];
    ReadTwo(Next(s, a), b, c);
  }

  lemma ReadFour(s: State, a: byte, b: byte, c: byte, d: byte)
    ensures Read(s, [a, b, c, d]) == Next(Next(Next(Next(s, a), b), c), d)
  {
    assert [a, b, c, d][1..] == [b, c, d];
    ReadThree(Next(s, a), b, c, d);
  }

  lemma EncodeReads(u: nat)
    requires Scalar(u)
    ensures Valid(Encode(u))
  {
    var e := Encode(u);
    if |e| == 1 {
      ReadOne(Boundary, e[0]);
    } else if |e| == 2 {
      ReadTwo(Boundary, e[0], e[1]);
    } else if |e| == 3 {
      ReadThree(Boundary, e[0], e[1], e[2]);
    } else {
      EncodeFour(u);
    }
  }

  lemma EncodeFour(u: nat)
    requires 0x1_0000 <= u < 0x11_0000
    ensures Valid(Encode(u))
  {
    var e := Encode(u);
    ReadFour(Boundary, e[0], e[1], e[2], e[3]);
  }

  lemma {:induction false} EncodeAllValid(us: seq<nat>)
    requires AllScalar(us)
    ensures Valid(EncodeAll(us))
  {
    if us != [] {
      EncodeReads(us[0]);
      EncodeAllValid(us[1..]);
      ReadConcat(Boundary, Encode(us[0]), EncodeAll(us[1..]));
    }
  }

  lemma Sixes(hi: nat, lo: nat)
    requires lo < 64
    ensures (64 * hi + lo) / 64 == hi && (64 * hi + lo) % 64 == lo
  {
  }

  /** The character a valid text begins with. */
  lemma FirstCharacter(t: Bytes) returns (u: nat, k: nat)
    requires t != [] && Valid(t)
    ensures 0 < k <= |t| && Scalar(u) && Encode(u) == t[..k]
  {
    MissingIsNeeded(Next(Boundary, t[0]), t[1..]);
    if t[0] < 0x80 {
      u, k := t[0], 1;
    } else if t[0] < 0xE0 {
      u := TwoBytes(t);
      k := 2;
    } else if t[0] < 0xF0 {
      u := ThreeBytes(t);
      k := 3;
    } else {
      u := FourBytes(t);
      k := 4;
    }
  }

  lemma Unread(s: State, t: Bytes)
    requires t != [] && Read(s, t) == Boundary
    ensures Read(Next(s, t[0]), t[1..]) == Boundary && Next(s, t[0]) != Broken
  {
    MissingIsNeeded(Next(s, t[0]), t[1..]);
  }

  lemma TwoBytes(t: Bytes) returns (u: nat)
    requires |t| >= 2 && Valid(t) && 0x80 <= t[0] < 0xE0
    ensures Scalar(u) && Encode(u) == t[..2]
  {
    Unread(Boundary, t);
    Unread(Next(Boundary, t[0]), t[1..]);
    Sixes(t[0] - 0xC0, t[1] - 0x80);
    u := 64 * (t[0] as int - 0xC0) + (t[1] as int - 0x80);
  }

  lemma ThreeBytes(t: Bytes) returns (u: nat)
    requires |t| >= 3 && Valid(t) && 0xE0 <= t[0] < 0xF0
    ensures Scalar(u) && Encode(u) == t[..3]
  {
    Unread(Boundary, t);
    Unread(Next(Boundary, t[0]), t[1..]);
    Unread(Next(Next(Boundary, t[0]), t[1]), t[2..]);
    var hi: nat := 64 * (t[0] as int - 0xE0) + (t[1] as int - 0x80);
    Sixes(t[0] - 0xE0, t[1] - 0x80);
    Sixes(hi, t[2] - 0x80);
    u := 64 * hi + (t[2] as int - 0x80);
  }

  lemma FourBytes(t: Bytes) returns (u: nat)
    requires |t| >= 4 && Valid(t) && 0xF0 <= t[0]
    ensures Scalar(u) && Encode(u) == t[..4]
  {
    Unread(Boundary, t);
    Unread(Next(Boundary, t[0]), t[1..]);
    Unread(Next(Next(Boundary, t[0]), t[1]), t[2..]);
    Unread(Next(Next(Next(Boundary, t[0]), t[1]), t[2]), t[3..]);
    var top: nat := 64 * (t[0] as int - 0xF0) + (t[1] as int - 0x80);
    var hi: nat := 64 * top + (t[2] as int - 0x80);
    Sixes(t[0] - 0xF0, t[1] - 0x80);
    Sixes(top, t[2] - 0x80);
    Sixes(hi, t[3] - 0x80);
    u := 64 * hi + (t[3] as int - 0x80);
  }

  lemma {:induction false} Characters(t: Bytes) returns (us: seq<nat>)
    requires Valid(t)
    ensures AllScalar(us) && EncodeAll(us) == t
    decreases |t|
  {
    if t == [] {
      us := [];
    } else {
      var u, k := FirstCharacter(t);
      assert t == t[..k] + t[k..];
      EncodeReads(u);
      ReadConcat(Boundary, t[..k], t[k..]);
      var rest := Characters(t[k..]);
      us := [u] + rest;
      assert us[1..] == rest;
    }
  }

  /** A text is valid exactly when it is the encoding of some Unicode scalar values. */
  lemma ValidIff(t: Bytes)
    ensures Valid(t) <==> exists us: seq<nat> :: AllScalar(us) && EncodeAll(us) == t
  {
    if Valid(t) {
      var us := Characters(t);
    }
    if us: seq<nat> :| AllScalar(us) && EncodeAll(us) == t {
      EncodeAllValid(us);
    }
  }
}
