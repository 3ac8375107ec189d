/**
 * The `Debug` printer of `BStr` in rust/src/str.rs: a quoted string with non-printable bytes,
 * quotes and backslashes escaped. Characters are their ASCII codes.
 */
module BStrDebug {
  import opened Common

  const TAB: Byte := 9
  const NEWLINE: Byte := 10
  const RETURN: Byte := 13
  const QUOTE: Byte := 34
  const BACKSLASH: Byte := 92

  function HexDigit(d: nat): Byte
    requires d < 16
  {
    if d < 10 then 48 + d else 87 + d
  }

  /** What is written for one byte. */
  function Escape(b: Byte): seq<Byte> {
    if b == TAB then [BACKSLASH, 116]
    else if b == NEWLINE then [BACKSLASH, 110]
    else if b == RETURN then [BACKSLASH, 114]
    else if b == QUOTE then [BACKSLASH, QUOTE]
    else if b == BACKSLASH then [BACKSLASH, BACKSLASH]
    else if 0x20 <= b <= 0x7e then [b]
    else [BACKSLASH, 120, HexDigit(b / 16), HexDigit(b % 16)]
  }

  ghost function Body(bs: seq<Byte>): seq<Byte> {
    if bs == [] then [] else Escape(bs[0]) + Body(bs[1..])
  }

  ghost function Printed(bs: seq<Byte>): seq<Byte> {
    [QUOTE] + Body(bs) + [QUOTE]
  }

  // ----- what is printed, in ASCII codes -----

  /** Printable, and neither a quote nor a backslash. */
  predicate IsPlain(b: Byte) { 0x20 <= b <= 0x7e && b != 34 && b != 92 }

  /** The letter that stands for a byte after a backslash, if it has one. */
  function Letter(b: Byte): Option<Byte> {
    match b
    case 9 => Some(116)
    case 10 => Some(110)
    case 13 => Some(114)
    case 34 => Some(34)
    case 92 => Some(92)
    case _ => None
  }

  /** The digits 0 to 9 and a to f. */
  const DIGITS: seq<Byte> := [48, 49, 50, 51, 52, 53, 54, 55, 56, 57, 97, 98, 99, 100, 101, 102]

  /**
   * A plain byte prints as itself, one of the five with a letter as a backslash and the letter, and
   * any other as a backslash, an x and its two lower-case hexadecimal digits, the high one first.
   */
  lemma EscapeIs(b: Byte)
    ensures IsPlain(b) ==> Escape(b) == [b]
    ensures Letter(b).Some? ==> Escape(b) == [92, Letter(b).value]
    ensures !IsPlain(b) && Letter(b).None? ==> Escape(b) == [92, 120, DIGITS[b / 16], DIGITS[b % 16]]
  {
    HexDigitIs(b / 16);
    HexDigitIs(b % 16);
  }

  lemma HexDigitIs(d: nat)
    requires d < 16
    ensures HexDigit(d) == DIGITS[d]
  {
  }

  /** Printing goes byte by byte: the body of a text is the bodies of its parts. */
  lemma {:induction false} BodyOfSum(a: seq<Byte>, b: seq<Byte>)
    ensures Body(a + b) == Body(a) + Body(b)
  {
    if a == [] {
      assert a + b == b;
    } else {
      assert (a + b)[0] == a[0] && (a + b)[1..] == a[1..] + b;
      BodyOfSum(a[1..], b);
    }
  }

  /** So any byte at any place prints as `EscapeIs` says, between what the parts around it print. */
  lemma {:induction false} PrintedAround(a: seq<Byte>, b: Byte, c: seq<Byte>)
    ensures Printed(a + [b] + c) == [34] + (Body(a) + Escape(b) + Body(c)) + [34]
  {
    BodyOfSum(a + [b], c);
    BodyOfSum(a, [b]);
    BodyOfOne(b);
  }

  lemma {:induction false} BodyOfOne(b: Byte)
    ensures Body([b]) == Escape(b)
  {
    assert [b][1..] == [] && Escape(b) + [] == Escape(b);
  }

  /** A text of plain bytes prints as itself between quotes. */
  lemma {:induction false} PlainPrints(bs: seq<Byte>)
    ensures (forall i :: 0 <= i < |bs| ==> IsPlain(bs[i])) ==> Body(bs) == bs && Printed(bs) == [34] + bs + [34]
    decreases |bs|
  {
    if bs != [] && forall i :: 0 <= i < |bs| ==> IsPlain(bs[i]) {
      PlainPrints(bs[1..]);
      EscapeIs(bs[0]);
      assert [bs[0]] + bs[1..] == bs;
    }
  }

  /** `fmt`, writing to a sink that never fails. */
  method Debug(bs: seq<Byte>) returns (out: seq<Byte>)
    ensures out == Printed(bs)
    ensures (forall i :: 0 <= i < |bs| ==> IsPlain(bs[i])) ==> out == [34] + bs + [34]
  {
    out := [QUOTE];
    for i := 0 to |bs|
      invariant [QUOTE] + Body(bs) == out + Body(bs[i..])
    {
      assert bs[i..][1..] == bs[i + 1..];
      out := out + Escape(bs[i]);
    }
    out := out + [QUOTE];
    assert out == Printed(bs);
    PlainPrints(bs);
  }

  function HexValue(c: Byte): Option<nat> {
    if 48 <= c <= 57 then Some(c - 48) else if 97 <= c <= 102 then Some(c - 87) else None
  }

  /** One escaped byte read back from the front of `s`, with its length. */
  function Unescape(s: seq<Byte>): Option<(Byte, nat)> {
    if s == [] || s[0] == QUOTE then None
    else if s[0] != BACKSLASH then Some((s[0], 1))
    else if |s| < 2 then None
    else if s[1] == 116 then Some((TAB, 2))
    else if s[1] == 110 then Some((NEWLINE, 2))
    else if s[1] == 114 then Some((RETURN, 2))
    else if s[1] == QUOTE || s[1] == BACKSLASH then Some((s[1], 2))
    else if |s| < 4 then None
    else match (HexValue(s[2]), HexValue(s[3]))
      case (Some(h), Some(l)) => Some((h * 16 + l, 4))
      case _ => None
  }

  /** A reader of printed strings: the bytes, and what follows the closing quote. */
  function Read(s: seq<Byte>): Option<(seq<Byte>, seq<Byte>)>
    decreases |s|
  {
    if s != [] && s[0] == QUOTE then Some(([], s[1..]))
    else
      match Unescape(s)
      case None => None
      case Some((b, n)) =>
        if n > |s| then None
        else
          match Read(s[n..])
          case None => None
          case Some((bs, rest)) => Some(([b] + bs, rest))
  }

  lemma UnescapeEscape(b: Byte, rest: seq<Byte>)
    ensures Unescape(Escape(b) + rest) == Some((b, |Escape(b)|))
    ensures Escape(b)[0] != QUOTE && 1 <= |Escape(b)| <= 4
    ensures forall i :: 0 <= i < |Escape(b)| ==> 0x20 <= Escape(b)[i] <= 0x7e
  {
    var s := Escape(b) + rest;
    assert s[0] == Escape(b)[0];
    if |Escape(b)| > 1 {
      assert s[1] == Escape(b)[1];
    }
    if |Escape(b)| == 4 {
      assert HexValue(s[2]) == Some(b / 16) && HexValue(s[3]) == Some(b % 16);
    }
  }

  lemma {:induction false} ReadBody(bs: seq<Byte>, rest: seq<Byte>)
    ensures Read(Body(bs) + [QUOTE] + rest) == Some((bs, rest))
  {
    var s := Body(bs) + [QUOTE] + rest;
    if bs == [] {
      assert s[1..] == rest;
    } else {
      var e, tail := Escape(bs[0]), Body(bs[1..]) + [QUOTE] + rest;
      assert s == e + tail;
      UnescapeEscape(bs[0], tail);
      assert s[|e|..] == tail;
      ReadBody(bs[1..], rest);
      assert [bs[0]] + bs[1..] == bs;
    }
  }

  /** Reading back what was printed, followed by anything, gives the bytes and exactly that rest. */
  lemma ReadPrinted(bs: seq<Byte>, rest: seq<Byte>)
    ensures (Printed(bs) + rest)[0] == QUOTE && Read((Printed(bs) + rest)[1..]) == Some((bs, rest))
  {
    assert (Printed(bs) + rest)[1..] == Body(bs) + [QUOTE] + rest;
    ReadBody(bs, rest);
  }

  /** No output is a prefix of another; in particular, different byte strings print differently. */
  lemma PrefixFree(a: seq<Byte>, b: seq<Byte>)
    requires Printed(a) <= Printed(b)
    ensures a == b
  {
    var rest := Printed(b)[|Printed(a)|..];
    assert Printed(b) == Printed(a) + rest && Printed(b) == Printed(b) + [];
    ReadPrinted(a, rest);
    ReadPrinted(b, []);
  }

  lemma {:induction false} BodyShape(bs: seq<Byte>)
    ensures |bs| <= |Body(bs)| <= 4 * |bs|
    ensures forall i :: 0 <= i < |Body(bs)| ==> 0x20 <= Body(bs)[i] <= 0x7e
  {
    if bs != [] {
      BodyShape(bs[1..]);
      UnescapeEscape(bs[0], []);
    }
  }

  /** All output is printable ASCII, and its length is between n + 2 and 4n + 2. */
  lemma PrintedShape(bs: seq<Byte>)
    ensures |bs| + 2 <= |Printed(bs)| <= 4 * |bs| + 2
    ensures forall i :: 0 <= i < |Printed(bs)| ==> 0x20 <= Printed(bs)[i] <= 0x7e
  {
    BodyShape(bs);
  }
}
