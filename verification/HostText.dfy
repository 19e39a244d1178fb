/** Host names and IP literals as text.  The standard library's IP parsers and printers, UTF-8 validity and
    UUID parsing are fields of `Net`; `Lawful` lists what is used of them. */
module HostText {
  import opened Prelude
  import Utf8

  datatype Net = Net(
    parseV4: Bytes -> Option<Bytes>,
    parseV6: Bytes -> Option<Bytes>,
    showV6: Bytes -> Bytes,
    utf8: Bytes -> bool,
    lossy: Bytes -> Bytes,
    trim: Bytes -> Bytes,
    parseUuid: Bytes -> Option<Bytes>)
  {
    ghost predicate Lawful() {
      && (forall t: Bytes :: parseV4(t).Some? ==> |parseV4(t).value| == 4)
      && (forall t: Bytes :: parseV6(t).Some? ==> |parseV6(t).value| == 16)
      && (forall t: Bytes :: parseUuid(t).Some? ==> |parseUuid(t).value| == 16)
      && (forall t: Bytes :: utf8(t) ==> lossy(t) == t)
    }

    /** UTF-8 validity is what the Unicode Standard says it is. */
    ghost predicate Unicode() {
      forall t: Bytes :: utf8(t) <==> Utf8.Valid(t)
    }

    /** The text a server sees for `host`: the printed address for an IP literal, the name otherwise. */
    function Canonical(host: Bytes): Bytes {
      if parseV4(host).Some? then ShowV4(parseV4(host).value)
      else if parseV6(host).Some? then showV6(parseV6(host).value)
      else host
    }
  }

  function Decimal(n: byte): Bytes {
    if n >= 100 then [48 + n / 100, 48 + n / 10 % 10, 48 + n % 10]
    else if n >= 10 then [48 + n / 10, 48 + n % 10]
    else [48 + n]
  }

  /** `format!("{}.{}.{}.{}", ..)`; `octets` holds four bytes. */
  function ShowV4(octets: Bytes): Bytes {
    if |octets| != 4 then []
    else Decimal(octets[0]) + [46] + Decimal(octets[1]) + [46] + Decimal(octets[2]) + [46] + Decimal(octets[3])
  }

  // ---- Printed addresses can be read back ----

  predicate Digits(t: Bytes) {
    forall i :: 0 <= i < |t| ==> '0' <= t[i] as char <= '9'
  }

  /** An octet is printed in decimal digits, without a leading zero, that stand for its value. */
  lemma DecimalReads(n: byte)
    ensures var t := Decimal(n);
            && Digits(t) && 1 <= |t| <= 3 && (|t| > 1 ==> t[0] as char != '0')
            && n as int == (t[|t| - 1] as int - 48)
                           + (if |t| > 1 then 10 * (t[|t| - 2] as int - 48) else 0)
                           + (if |t| > 2 then 100 * (t[0] as int - 48) else 0)
  {
  }

  /** The texts between the dots. */
  function Fields(t: Bytes): (fs: seq<Bytes>)
    ensures fs != []
    decreases |t|
  {
    if t == [] then [[]]
    else
      var rest := Fields(t[1..]);
      if t[0] as char == '.' then [[]] + rest else [[t[0]] + rest[0]] + rest[1..]
  }

  lemma {:induction false} FieldsFirst(a: Bytes, rest: Bytes)
    requires Digits(a)
    ensures Fields(a + [46] + rest) == [a] + Fields(rest)
    ensures Fields(a) == [a]
    decreases |a|
  {
    var t := a + [46] + rest;
    if a == [] {
      assert t[1..] == rest;
    } else {
      FieldsFirst(a[1..], rest);
      assert t[1..] == a[1..] + [46] + rest;
      assert [a[0]] + a[1..] == a;
    }
  }

  lemma Regrouped(a: Bytes, b: Bytes, c: Bytes, d: Bytes, dot: Bytes)
    ensures a + dot + b + dot + c + dot + d == a + dot + (b + dot + (c + dot + d))
  {
  }

  lemma FieldsNext(a: Bytes, rest: Bytes, fs: seq<Bytes>)
    requires Digits(a) && Fields(rest) == fs
    ensures Fields(a + [46] + rest) == [a] + fs
  {
    FieldsFirst(a, rest);
  }

  lemma FourFields(a: Bytes, b: Bytes, c: Bytes, d: Bytes)
    requires Digits(a) && Digits(b) && Digits(c) && Digits(d)
    ensures Fields(a + [46] + b + [46] + c + [46] + d) == [a, b, c, d]
  {
    FieldsFirst(d, []);
    FieldsNext(c, d, [d]);
    FieldsNext(b, c + [46] + d, [c, d]);
    FieldsNext(a, b + [46] + (c + [46] + d), [b, c, d]);
    Regrouped(a, b, c, d, [46]);
  }

  /** An IPv4 address is printed as its four octets with dots in between. */
  lemma ShowV4Reads(o: Bytes)
    requires |o| == 4
    ensures Fields(ShowV4(o)) == [Decimal(o[0]), Decimal(o[1]), Decimal(o[2]), Decimal(o[3])]
  {
    DecimalReads(o[0]);
    DecimalReads(o[1]);
    DecimalReads(o[2]);
    DecimalReads(o[3]);
    FourFields(Decimal(o[0]), Decimal(o[1]), Decimal(o[2]), Decimal(o[3]));
  }
}
