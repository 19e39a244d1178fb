/** Globs compiled to regular-expression text (local-stack/client/src/default_rules.rs, `glob_pattern_to_regex`).

    The regex library is a parameter.  What it makes of a text is spelled out on the fragment that globs compile to:
    literals, `\.`, `.`, a star on an atom, the anchors and the case-insensitive flag, and on ASCII text, where a
    character is one byte. */
module Glob {
  import opened Prelude
  import opened Ascii

  const QUESTION: byte := 63
  const BACKSLASH: byte := 92
  const CARET: byte := 94
  const DOLLAR: byte := 36
  const NEWLINE: byte := 10

  /** Plus, parentheses, bar, opening bracket, opening brace, backslash: syntax outside the fragment. */
  predicate OutsideFragment(c: byte) {
    c == 43 || c == 40 || c == 41 || c == 124 || c == 91 || c == 123 || c == BACKSLASH || c >= 128
  }

  // ---- The language of a glob ----

  /** What one pattern character may stand for. */
  predicate Fits(c: byte, s: Bytes) {
    if c == STAR then NEWLINE !in s
    else if c == QUESTION then |s| == 1 && s[0] != NEWLINE
    else |s| == 1 && LowerChar(s[0]) == LowerChar(c)
  }

  predicate FitAll(p: Bytes, pieces: seq<Bytes>) {
    |pieces| == |p| && forall k :: 0 <= k < |p| ==> Fits(p[k], pieces[k])
  }

  /** A text belongs to a pattern when it can be cut into one fitting piece per pattern character. */
  ghost predicate InLanguage(p: Bytes, h: Bytes) {
    exists pieces: seq<Bytes> :: FitAll(p, pieces) && Flatten(pieces) == h
  }

  // ---- Regular expressions: text, structure, meaning ----

  datatype Atom = Lit(c: byte) | AnyChar

  datatype Item = One(a: Atom) | Many(a: Atom) | Start | End

  function ReadAtom(t: Bytes): Option<(Atom, nat)>
    requires t != []
  {
    if t[0] == BACKSLASH then if |t| >= 2 && t[1] == DOT then Some((Lit(DOT), 2)) else None
    else if OutsideFragment(t[0]) || t[0] == STAR || t[0] == QUESTION then None
    else if t[0] == DOT then Some((AnyChar, 1))
    else Some((Lit(t[0]), 1))
  }

  function ReadItems(t: Bytes): Option<seq<Item>>
    decreases |t|
  {
    if t == [] then Some([])
    else if t[0] == CARET || t[0] == DOLLAR then
      var more := ReadItems(t[1..]);
      if more.None? then None else Some([if t[0] == CARET then Start else End] + more.value)
    else
      match ReadAtom(t)
      case None => None
      case Some((a, n)) =>
        if n < |t| && t[n] == STAR then
          var more := ReadItems(t[n + 1..]);
          if more.None? then None else Some([Many(a)] + more.value)
        else
          var more := ReadItems(t[n..]);
          if more.None? then None else Some([One(a)] + more.value)
  }

  /** "(?i)" */
  const IGNORE_CASE: Bytes := [40, 63, 105, 41]

  function ReadRegex(t: Bytes): Option<seq<Item>> {
    if IGNORE_CASE <= t then ReadItems(t[4..]) else None
  }

  predicate Takes(a: Atom, c: byte) {
    match a
    case Lit(l) => LowerChar(l) == LowerChar(c)
    case AnyChar => c != NEWLINE
  }

  /** Whether the items match some stretch of `h` that begins at `i`. */
  predicate MatchAt(items: seq<Item>, h: Bytes, i: nat)
    requires i <= |h|
    decreases |items|, |h| - i
  {
    items == [] ||
    match items[0]
    case Start => i == 0 && MatchAt(items[1..], h, i)
    case End => i == |h| && MatchAt(items[1..], h, i)
    case One(a) => i < |h| && Takes(a, h[i]) && MatchAt(items[1..], h, i + 1)
    case Many(a) => MatchAt(items[1..], h, i) || (i < |h| && Takes(a, h[i]) && MatchAt(items, h, i + 1))
  }

  /** `Regex::is_match`: a match anywhere in the text. */
  predicate IsMatch(items: seq<Item>, h: Bytes) {
    exists i :: 0 <= i <= |h| && MatchAt(items, h, i)
  }

  /** A compiled regex: the texts in which it finds a match. */
  datatype Regex = Regex(hits: Bytes -> bool)

  /** The regex library: what each text compiles to, if it compiles. */
  datatype Library = Library(compile: Bytes -> Option<Regex>)
  {
    /** Texts of the fragment compile, and mean on ASCII text what their items say. */
    ghost predicate Lawful() {
      forall t: Bytes :: ReadRegex(t).Some? ==> Means(t)
    }

    ghost predicate Means(t: Bytes)
      requires ReadRegex(t).Some?
    {
      && compile(t).Some?
      && forall h: Bytes | IsAscii(h) :: compile(t).value.hits(h) <==> IsMatch(ReadRegex(t).value, h)
    }
  }

  // ---- The compiler ----

  function Piece(c: byte): Bytes {
    if c == STAR then [DOT, STAR]
    else if c == DOT then [BACKSLASH, DOT]
    else if c == QUESTION then [DOT]
    else [c]
  }

  function BodyText(p: Bytes): Bytes {
    if p == [] then [] else Piece(p[0]) + BodyText(p[1..])
  }

  function RegexText(p: Bytes): Bytes {
    IGNORE_CASE + [CARET] + BodyText(p) + [DOLLAR]
  }

  lemma {:induction false} BodyTextSnoc(p: Bytes, i: nat)
    requires i < |p|
    ensures BodyText(p[..i + 1]) == BodyText(p[..i]) + Piece(p[i])
  {
    if i == 0 {
      assert p[..1][1..] == [];
    } else {
      BodyTextSnoc(p[1..], i - 1);
      assert p[..i + 1][1..] == p[1..][..i] && p[..i][1..] == p[1..][..i - 1];
    }
  }

  method ToRegexText(pattern: Bytes) returns (out: Bytes)
    ensures out == RegexText(Trim(pattern))
  {
    var p := Trim(pattern);
    out := IGNORE_CASE + [CARET];
    for i := 0 to |p|
      invariant out == IGNORE_CASE + [CARET] + BodyText(p[..i])
    {
      BodyTextSnoc(p, i);
      var piece: Bytes;
      if p[i] == STAR {
        piece := [DOT, STAR];
      } else if p[i] == DOT {
        piece := [BACKSLASH, DOT];
      } else if p[i] == QUESTION {
        piece := [DOT];
      } else {
        piece := [p[i]];
      }
      out := out + piece;
    }
    assert p[..|p|] == p;
    out := out + [DOLLAR];
  }

  // ---- What the text parses to ----

  predicate InFragment(p: Bytes) {
    forall i :: 0 <= i < |p| ==> !OutsideFragment(p[i])
  }

  function ItemOf(c: byte): Item {
    if c == STAR then Many(AnyChar)
    else if c == QUESTION then One(AnyChar)
    else if c == CARET then Start
    else if c == DOLLAR then End
    else One(Lit(c))
  }

  function ItemsOf(p: Bytes): seq<Item> {
    if p == [] then [End] else [ItemOf(p[0])] + ItemsOf(p[1..])
  }

  /** The compiled text never starts with a star, so no star is read as a quantifier of the wrong atom. */
  lemma NoLeadingStar(p: Bytes)
    requires InFragment(p)
    ensures BodyText(p) + [DOLLAR] != [] && (BodyText(p) + [DOLLAR])[0] != STAR
  {
  }

  lemma ReadPiece(c: byte, rest: Bytes)
    requires !OutsideFragment(c) && rest != [] && rest[0] != STAR
    requires ReadItems(rest).Some?
    ensures ReadItems(Piece(c) + rest) == Some([ItemOf(c)] + ReadItems(rest).value)
  {
    var t := Piece(c) + rest;
    if c == STAR || c == DOT {
      assert t[2..] == rest;
    } else {
      assert t[1..] == rest;
    }
  }

  lemma {:induction false} ReadBody(p: Bytes)
    requires InFragment(p)
    ensures ReadItems(BodyText(p) + [DOLLAR]) == Some(ItemsOf(p))
  {
    if p == [] {
      var t := BodyText(p) + [DOLLAR];
      assert t == [DOLLAR] && t[1..] == [];
      assert ReadItems(t) == Some([End] + []);
      assert [End] + [] == [End];
    } else {
      var rest := BodyText(p[1..]) + [DOLLAR];
      ReadBody(p[1..]);
      NoLeadingStar(p[1..]);
      ReadPiece(p[0], rest);
      assert BodyText(p) + [DOLLAR] == Piece(p[0]) + rest;
    }
  }

  lemma ReadCompiled(p: Bytes)
    requires InFragment(p)
    ensures ReadRegex(RegexText(p)) == Some([Start] + ItemsOf(p))
  {
    var t := RegexText(p);
    var body := BodyText(p) + [DOLLAR];
    assert t[4..] == [CARET] + body;
    assert t[4..][1..] == body;
    ReadBody(p);
  }

  // ---- What it means ----

  predicate IsAnchor(c: byte) {
    c == CARET || c == DOLLAR
  }

  predicate NoAnchors(p: Bytes) {
    forall i :: 0 <= i < |p| ==> !IsAnchor(p[i])
  }

  /** A match yields the pieces ... */
  lemma {:induction false} MatchToPieces(p: Bytes, h: Bytes, i: nat) returns (pieces: seq<Bytes>)
    requires NoAnchors(p) && i <= |h| && MatchAt(ItemsOf(p), h, i)
    ensures FitAll(p, pieces) && Flatten(pieces) == h[i..]
    decreases |p|, |h| - i
  {
    if p == [] {
      pieces := [];
    } else if p[0] == STAR && MatchAt(ItemsOf(p[1..]), h, i) {
      var rest := MatchToPieces(p[1..], h, i);
      pieces := [[]] + rest;
    } else if p[0] == STAR {
      var rest := MatchToPieces(p, h, i + 1);
      pieces := [[h[i]] + rest[0]] + rest[1..];
      assert h[i..] == [h[i]] + h[i + 1..];
    } else {
      var rest := MatchToPieces(p[1..], h, i + 1);
      pieces := [[h[i]]] + rest;
      assert h[i..] == [h[i]] + h[i + 1..];
    }
  }

  /** Taking one byte off the first piece. */
  lemma FirstByte(pieces: seq<Bytes>, h: Bytes, i: nat)
    requires i <= |h| && Flatten(pieces) == h[i..] && pieces != [] && pieces[0] != []
    ensures i < |h| && h[i] == pieces[0][0]
    ensures Flatten([pieces[0][1..]] + pieces[1..]) == h[i + 1..]
    ensures |pieces[0]| == 1 ==> Flatten(pieces[1..]) == h[i + 1..]
  {
    var rest := Flatten(pieces[1..]);
    assert h[i..] == pieces[0] + rest;
    assert h[i] == h[i..][0];
    assert h[i + 1..] == h[i..][1..] == pieces[0][1..] + rest;
    var shorter := [pieces[0][1..]] + pieces[1..];
    assert shorter[1..] == pieces[1..];
  }

  /** ... and pieces yield a match. */
  lemma {:induction false} PiecesToMatch(p: Bytes, pieces: seq<Bytes>, h: Bytes, i: nat)
    requires NoAnchors(p) && i <= |h| && FitAll(p, pieces) && Flatten(pieces) == h[i..]
    ensures MatchAt(ItemsOf(p), h, i)
    decreases |p|, |h| - i
  {
    if p == [] {
    } else {
      if pieces[0] == [] {
        PiecesToMatch(p[1..], pieces[1..], h, i);
      } else {
        FirstByte(pieces, h, i);
        if p[0] == STAR {
          PiecesToMatch(p, [pieces[0][1..]] + pieces[1..], h, i + 1);
        } else {
          PiecesToMatch(p[1..], pieces[1..], h, i + 1);
        }
      }
    }
  }

  lemma AnchoredMatch(p: Bytes, h: Bytes)
    ensures IsMatch([Start] + ItemsOf(p), h) <==> MatchAt(ItemsOf(p), h, 0)
  {
    var items := [Start] + ItemsOf(p);
    assert items[1..] == ItemsOf(p);
    assert MatchAt(items, h, 0) <==> MatchAt(ItemsOf(p), h, 0);
  }

  /** The regex text built from a glob denotes exactly the glob's language. */
  lemma RegexDenotesGlob(p: Bytes, h: Bytes)
    requires InFragment(p) && NoAnchors(p)
    ensures ReadRegex(RegexText(p)).Some?
    ensures IsMatch(ReadRegex(RegexText(p)).value, h) <==> InLanguage(p, h)
  {
    ReadCompiled(p);
    AnchoredMatch(p, h);
    assert h[0..] == h;
    if MatchAt(ItemsOf(p), h, 0) {
      var pieces := MatchToPieces(p, h, 0);
    }
    if InLanguage(p, h) {
      var pieces: seq<Bytes> :| FitAll(p, pieces) && Flatten(pieces) == h;
      PiecesToMatch(p, pieces, h, 0);
    }
  }

  // ---- An unescaped anchor always changes the language ----

  /** The text with every anchor and every byte outside ASCII replaced by `x`. */
  function Masked(h: Bytes): (r: Bytes)
    ensures |r| == |h| && IsAscii(r)
    ensures forall i :: 0 <= i < |r| ==> !IsAnchor(r[i])
  {
    seq(|h|, i requires 0 <= i < |h| => if IsAnchor(h[i]) || h[i] >= 128 then 120 else h[i])
  }

  lemma {:induction false} MaskedMatches(p: Bytes, h: Bytes, i: nat)
    requires InFragment(p) && i <= |h| && MatchAt(ItemsOf(p), h, i)
    ensures MatchAt(ItemsOf(p), Masked(h), i)
    decreases |p|, |h| - i
  {
    if p == [] {
    } else {
      if p[0] == STAR && !MatchAt(ItemsOf(p[1..]), h, i) {
        MaskedMatches(p, h, i + 1);
      } else if p[0] == STAR || IsAnchor(p[0]) {
        MaskedMatches(p[1..], h, i);
      } else {
        MaskedMatches(p[1..], h, i + 1);
      }
    }
  }

  lemma {:induction false} PieceInside(pieces: seq<Bytes>, k: nat, c: byte)
    requires k < |pieces| && pieces[k] == [c]
    ensures c in Flatten(pieces)
  {
    if k == 0 {
    } else {
      PieceInside(pieces[1..], k - 1, c);
    }
  }

  function Sample(p: Bytes): (pieces: seq<Bytes>)
    ensures FitAll(p, pieces)
  {
    seq(|p|, i requires 0 <= i < |p| => if p[i] == STAR then [] else if p[i] == QUESTION then [120] else [p[i]])
  }

  lemma SampleAscii(p: Bytes)
    requires InFragment(p)
    ensures IsAscii(Flatten(Sample(p)))
  {
    FlattenAscii(Sample(p));
  }

  lemma {:induction false} FlattenAscii(pieces: seq<Bytes>)
    requires forall k :: 0 <= k < |pieces| ==> IsAscii(pieces[k])
    ensures IsAscii(Flatten(pieces))
  {
    if pieces == [] {
    } else {
      assert IsAscii(pieces[0]);
      FlattenAscii(pieces[1..]);
    }
  }

  /** An anchor character in the pattern always gives the compiled regex another language than the glob's. */
  lemma AnchorChangesLanguage(p: Bytes, k: nat) returns (h: Bytes)
    requires InFragment(p) && k < |p| && IsAnchor(p[k])
    ensures ReadRegex(RegexText(p)).Some?
    ensures IsAscii(h) && IsMatch(ReadRegex(RegexText(p)).value, h) != InLanguage(p, h)
  {
    ReadCompiled(p);
    if t: Bytes :| MatchAt(ItemsOf(p), t, 0) {
      h := Masked(t);
      MaskedMatches(p, t, 0);
      AnchoredMatch(p, h);
      if InLanguage(p, h) {
        var pieces: seq<Bytes> :| FitAll(p, pieces) && Flatten(pieces) == h;
        assert Fits(p[k], pieces[k]) && pieces[k] == [p[k]];
        PieceInside(pieces, k, p[k]);
        assert false;
      }
    } else {
      h := Flatten(Sample(p));
      SampleAscii(p);
      AnchoredMatch(p, h);
    }
  }

  /** So, for every pattern of the fragment, the compiled regex means the glob exactly when the pattern holds no
      anchor character. */
  lemma GlobMeaningKept(p: Bytes)
    requires InFragment(p)
    ensures ReadRegex(RegexText(p)).Some?
    ensures (forall h: Bytes | IsAscii(h) :: IsMatch(ReadRegex(RegexText(p)).value, h) <==> InLanguage(p, h))
            <==> NoAnchors(p)
  {
    ReadCompiled(p);
    if NoAnchors(p) {
      forall h: Bytes
        ensures IsMatch(ReadRegex(RegexText(p)).value, h) <==> InLanguage(p, h)
      {
        RegexDenotesGlob(p, h);
      }
    } else {
      var k :| 0 <= k < |p| && IsAnchor(p[k]);
      var h := AnchorChangesLanguage(p, k);
    }
  }

  /** A pattern that the regex library reads as the glob is meant. */
  predicate Plain(p: Bytes) {
    InFragment(p) && NoAnchors(p)
  }

  /** ASCII, and none of dollar, parentheses, plus, opening bracket, backslash, caret, opening brace and bar. */
  predicate Ordinary(p: Bytes) {
    forall i :: 0 <= i < |p| ==> p[i] < 128 && p[i] !in [36, 40, 41, 43, 91, 92, 94, 123, 124]
  }

  lemma OrdinaryIsPlain(p: Bytes)
    ensures Ordinary(p) <==> Plain(p)
  {
    assert forall c: byte :: c < 128 && c !in [36, 40, 41, 43, 91, 92, 94, 123, 124]
                             <==> !OutsideFragment(c) && !IsAnchor(c);
    if Plain(p) {
      forall i | 0 <= i < |p|
        ensures p[i] < 128 && p[i] !in [36, 40, 41, 43, 91, 92, 94, 123, 124]
      {
        assert !OutsideFragment(p[i]) && !IsAnchor(p[i]);
      }
    }
  }

  lemma PlainCompiled(lib: Library, p: Bytes, h: Bytes)
    requires lib.Lawful() && Ordinary(p)
    ensures var r := lib.compile(RegexText(p)); r.Some? && (IsAscii(h) ==> (r.value.hits(h) <==> InLanguage(p, h)))
  {
    OrdinaryIsPlain(p);
    RegexDenotesGlob(p, h);
    assert lib.Means(RegexText(p));
  }
}
