/**
 * The two-pass formatter behind `CString::try_from_fmt` in rust/src/str.rs.
 *
 * A formatting pass is any sequence of chunks together with the verdict it returns; the two passes
 * need not agree, and a pass may go on after a write has failed. Positions are machine addresses
 * with saturating arithmetic.
 */
module CStringFmt {
  import opened Common

  function SatAdd(a: nat, b: nat): (r: nat)
    ensures a + b <= 0xFFFF_FFFF_FFFF_FFFF ==> r == a + b
    ensures a + b > 0xFFFF_FFFF_FFFF_FFFF ==> r == 0xFFFF_FFFF_FFFF_FFFF
  {
    if a + b > USIZE_MAX then USIZE_MAX else a + b
  }

  function SatSub(a: nat, b: nat): (r: nat)
    ensures r == 0 || r + b == a
    ensures r == 0 <==> a <= b
  {
    if a < b then 0 else a - b
  }

  /** The first `n` chunks joined. */
  ghost function Joined(chunks: seq<seq<Byte>>, n: nat): seq<Byte>
    requires n <= |chunks|
  {
    if n == 0 then [] else Joined(chunks, n - 1) + chunks[n - 1]
  }

  /** The bytes that a pass produces. */
  ghost function Text(chunks: seq<seq<Byte>>): seq<Byte> {
    Joined(chunks, |chunks|)
  }

  /** The text of a pass is its chunks one after the other. */
  lemma {:induction false} TextOfSum(a: seq<seq<Byte>>, b: seq<seq<Byte>>)
    ensures Text(a + b) == Text(a) + Text(b)
    ensures forall c: seq<Byte> :: Text([c]) == c
    decreases |b|
  {
    forall c: seq<Byte>
      ensures Text([c]) == c
    {
      assert Joined([c], 0) == [];
    }
    if b == [] {
      assert a + b == a;
    } else {
      var n := |b| - 1;
      TextOfSum(a, b[..n]);
      JoinedPrefix(a + b, |a| + n);
      JoinedPrefix(b, n);
      assert (a + b)[..|a| + n] == a + b[..n];
    }
  }

  lemma {:induction false} JoinedPrefix(chunks: seq<seq<Byte>>, n: nat)
    requires n <= |chunks|
    ensures Joined(chunks, n) == Text(chunks[..n])
    decreases n
  {
    if n > 0 {
      JoinedPrefix(chunks, n - 1);
      JoinedPrefix(chunks[..n], n - 1);
      assert chunks[..n][..n - 1] == chunks[..n - 1];
    }
  }

  /** `data` with its front overwritten by as much of `text` as fits. */
  ghost function Overlay(data: seq<Byte>, text: seq<Byte>): seq<Byte> {
    var n := Min(|data|, |text|);
    text[..n] + data[n..]
  }

  /** `data` with `s` stored from index `at` on, as far as it fits. */
  ghost function Stored(data: seq<Byte>, at: nat, s: seq<Byte>): (r: seq<Byte>)
    ensures |r| == |data| && forall i :: 0 <= i < |r| ==> r[i] == if at <= i < at + |s| then s[i - at] else data[i]
  {
    seq(|data|, i requires 0 <= i < |data| => if at <= i < at + |s| then s[i - at] else data[i])
  }

  class RawFormatter {
    /** The buffer, which lies at addresses `beg` to `end`. */
    const buf: array<Byte>
    const beg: nat
    const end: nat
    var pos: nat

    ghost predicate Valid()
      reads this
    {
      beg <= pos <= USIZE_MAX && end <= USIZE_MAX && end - beg == buf.Length
    }

    constructor (buf: array<Byte>, beg: nat)
      requires beg + buf.Length <= USIZE_MAX
      ensures Valid() && this.buf == buf && this.beg == beg && pos == beg && end == beg + buf.Length
    {
      this.buf, this.beg, this.pos, this.end := buf, beg, beg, SatAdd(beg, buf.Length);
    }

    method WriteStr(s: seq<Byte>)
      requires Valid()
      modifies this, buf
      ensures Valid() && pos == SatAdd(old(pos), |s|)
      ensures buf[..] == Stored(old(buf[..]), old(pos) - beg, s)
    {
      var posNew := SatAdd(pos, |s|);
      var lenToCopy := SatSub(Min(posNew, end), pos);
      if lenToCopy > 0 {
        var at := pos - beg;
        forall i | 0 <= i < lenToCopy {
          buf[at + i] := s[i];
        }
      }
      pos := posNew;
    }

    /** One more chunk after a text. */
    method WriteMore(ghost data: seq<Byte>, ghost text: seq<Byte>, chunk: seq<Byte>)
      requires Valid() && |data| == buf.Length && pos == SatAdd(beg, |text|) && buf[..] == Overlay(data, text)
      modifies this, buf
      ensures Valid() && pos == SatAdd(beg, |text + chunk|) && buf[..] == Overlay(data, text + chunk)
    {
      OverlayMore(data, text, pos - beg, chunk);
      WriteStr(chunk);
    }

    /** One pass: after the chunks, the buffer holds as much of their text as fits. */
    method WriteFmt(chunks: seq<seq<Byte>>)
      requires Valid() && pos == beg
      modifies this, buf
      ensures Valid() && pos == SatAdd(beg, |Text(chunks)|)
      ensures buf[..] == Overlay(old(buf[..]), Text(chunks))
    {
      ghost var data, text := buf[..], [];
      for i := 0 to |chunks|
        invariant Valid() && |data| == buf.Length && text == Joined(chunks, i)
        invariant pos == SatAdd(beg, |text|)
        invariant buf[..] == Overlay(data, text)
      {
        WriteMore(data, text, chunks[i]);
        text := text + chunks[i];
      }
    }
  }

  lemma OverlayMore(data: seq<Byte>, text: seq<Byte>, at: nat, chunk: seq<Byte>)
    requires at == |text| || (at >= |data| && |text| >= |data|)
    ensures Stored(Overlay(data, text), at, chunk) == Overlay(data, text + chunk)
  {
  }

  /** One call of `write_fmt`: what it wrote, and whether it returned `Ok`. */
  datatype Pass = Pass(chunks: seq<seq<Byte>>, ok: bool)

  datatype Error = FmtError | OutOfMemory | InvalidInput

  /** A fresh allocation of `size` bytes at address `at`, holding whatever was there. */
  datatype Place = Place(at: nat, garbage: seq<Byte>)

  /** Allocations do not wrap around the end of the address space. */
  ghost predicate Fits(place: Option<Place>, size: nat) {
    place.Some? && size <= ISIZE_MAX ==> place.value.at + size <= USIZE_MAX && |place.value.garbage| == size
  }

  /** The result of `try_from_fmt` as the address arithmetic gives it. */
  ghost function Outcome(first: Pass, second: Pass, place: Option<Place>): Result<seq<Byte>, Error>
    requires Fits(place, |Text(first.chunks)| + 1)
  {
    var size := SatAdd(|Text(first.chunks)|, 1);
    var text := Text(second.chunks);
    if !first.ok then Err(FmtError)
    else if place.None? || size > ISIZE_MAX then Err(OutOfMemory)
    else
      var beg := place.value.at;
      var pos := SatAdd(SatAdd(beg, |text|), 1);
      if !second.ok || pos > beg + size then Err(FmtError)
      else
        var data := Overlay(place.value.garbage, text + [0])[..pos - beg];
        if 0 in data[..|data| - 1] then Err(InvalidInput) else Ok(data)
  }

  /** The measuring pass into an empty buffer, and the terminator. */
  method Measure(first: Pass) returns (size: nat)
    ensures size == SatAdd(|Text(first.chunks)|, 1)
  {
    var none := new Byte[0];
    var f := new RawFormatter(none, 0);
    f.WriteFmt(first.chunks);
    f.WriteStr([0]);
    size := f.pos - f.beg;
  }

  /** The second pass into the allocated buffer, the terminator, and the search for other NULs. */
  method WriteText(second: Pass, place: Place) returns (r: Result<seq<Byte>, Error>)
    requires place.garbage != [] && place.at + |place.garbage| <= USIZE_MAX
    ensures var text := Text(second.chunks);
            var pos := SatAdd(SatAdd(place.at, |text|), 1);
            if !second.ok || pos > place.at + |place.garbage| then r == Err(FmtError)
            else
              var data := Overlay(place.garbage, text + [0])[..pos - place.at];
              r == if 0 in data[..|data| - 1] then Err(InvalidInput) else Ok(data)
  {
    var buf := new Byte[|place.garbage|](i requires 0 <= i < |place.garbage| => place.garbage[i]);
    assert buf[..] == place.garbage;
    var g := new RawFormatter(buf, place.at);
    g.WriteFmt(second.chunks);
    if !second.ok {
      return Err(FmtError);
    }
    g.WriteMore(place.garbage, Text(second.chunks), [0]);
    if g.pos > g.end {
      return Err(FmtError);
    }
    var written := g.pos - g.beg;
    var data := buf[..written];
    assert data == buf[..][..written];
    r := if 0 in data[..written - 1] then Err(InvalidInput) else Ok(data);
  }

  method TryFromFmt(first: Pass, second: Pass, place: Option<Place>) returns (r: Result<seq<Byte>, Error>)
    requires Fits(place, |Text(first.chunks)| + 1)
    ensures r == Outcome(first, second, place)
  {
    var size := Measure(first);
    if !first.ok {
      return Err(FmtError);
    }
    if place.None? || size > ISIZE_MAX {
      return Err(OutOfMemory);
    }
    r := WriteText(second, place.value);
  }

  /** A buffer that does not end at the very last address. */
  predicate EndsBelowTop(place: Place, size: nat) { place.at + size < USIZE_MAX }

  /**
   * Whenever the buffer does not end at the very last address, success is characterised exactly,
   * and the result is the text of the second pass followed by the only NUL.
   */
  lemma SuccessIff(first: Pass, second: Pass, place: Place)
    requires Fits(Some(place), |Text(first.chunks)| + 1)
    requires EndsBelowTop(place, |Text(first.chunks)| + 1)
    ensures Outcome(first, second, Some(place)).Ok? <==>
              && first.ok && second.ok && |Text(first.chunks)| + 1 <= ISIZE_MAX
              && |Text(second.chunks)| <= |Text(first.chunks)| && 0 !in Text(second.chunks)
    ensures Outcome(first, second, Some(place)).Ok? ==>
              Outcome(first, second, Some(place)).value == Text(second.chunks) + [0]
  {
    var size, text := |Text(first.chunks)| + 1, Text(second.chunks);
    if size <= ISIZE_MAX && |text| <= |Text(first.chunks)| {
      var data := Overlay(place.garbage, text + [0])[..|text| + 1];
      assert data == text + [0];
      assert data[..|data| - 1] == text;
    }
  }

  /** Which error comes when: a failed pass or a second text that is too long, no memory, or a NUL in the text. */
  lemma ErrorIff(first: Pass, second: Pass, place: Option<Place>)
    requires Fits(place, |Text(first.chunks)| + 1)
    requires place.Some? ==> EndsBelowTop(place.value, |Text(first.chunks)| + 1)
    ensures var n, text := |Text(first.chunks)|, Text(second.chunks);
            var r, memory := Outcome(first, second, place), place.Some? && n + 1 <= 0x7FFF_FFFF_FFFF_FFFF;
            && (r == Err(OutOfMemory) <==> first.ok && !memory)
            && (r == Err(FmtError) <==> !first.ok || (memory && (!second.ok || |text| > n)))
            && (r == Err(InvalidInput) <==> first.ok && memory && second.ok && |text| <= n && 0 in text)
  {
    if place.Some? {
      SuccessIff(first, second, place.value);
    }
  }

  /** For every second pass, success means the second text and one final NUL. */
  ghost predicate Faithful(first: Pass, place: Place)
    requires Fits(Some(place), |Text(first.chunks)| + 1)
  {
    forall second: Pass ::
      Outcome(first, second, Some(place)).Ok? ==>
        Outcome(first, second, Some(place)).value == Text(second.chunks) + [0]
        && 0 !in Text(second.chunks)
  }

  /** `n` copies of the letter a. */
  ghost function Letters(n: nat): seq<Byte> { seq(n, _ => 97) }

  /**
   * The exact condition. At the last address the saturating position cannot pass the end, so a
   * second pass that is one byte too long is accepted without its NUL.
   */
  lemma FaithfulIff(first: Pass, place: Place)
    requires first.ok && |Text(first.chunks)| + 1 <= ISIZE_MAX
    requires Fits(Some(place), |Text(first.chunks)| + 1)
    ensures Faithful(first, place) <==> EndsBelowTop(place, |Text(first.chunks)| + 1)
  {
    var size := |Text(first.chunks)| + 1;
    if EndsBelowTop(place, size) {
      forall second: Pass
        ensures Outcome(first, second, Some(place)).Ok? ==>
                  Outcome(first, second, Some(place)).value == Text(second.chunks) + [0] && 0 !in Text(second.chunks)
      {
        SuccessIff(first, second, place);
      }
    } else {
      var second := Pass([Letters(size)], true);
      TopOverrun(first, place, second);
    }
  }

  lemma TopOverrun(first: Pass, place: Place, second: Pass)
    requires first.ok && |Text(first.chunks)| + 1 <= ISIZE_MAX && place.at + |Text(first.chunks)| + 1 == USIZE_MAX
    requires |place.garbage| == |Text(first.chunks)| + 1 && second == Pass([Letters(|Text(first.chunks)| + 1)], true)
    ensures Outcome(first, second, Some(place)) == Ok(Letters(|Text(first.chunks)| + 1))
    ensures Outcome(first, second, Some(place)).value != Text(second.chunks) + [0]
  {
    var size := |Text(first.chunks)| + 1;
    var text := Text(second.chunks);
    assert Joined(second.chunks, 0) == [];
    assert text == [] + second.chunks[0] == Letters(size);
    var data := Overlay(place.garbage, text + [0])[..size];
    assert data == Letters(size);
  }

  datatype CStrError = InteriorNul | NotNulTerminated

  /** `CStr::from_bytes_with_nul`; `None` is success. */
  method FromBytesWithNul(bytes: seq<Byte>) returns (e: Option<CStrError>)
    ensures e.None? <==> bytes != [] && bytes[|bytes| - 1] == 0 && 0 !in bytes[..|bytes| - 1]
    ensures e == Some(NotNulTerminated) <==> bytes == [] || bytes[|bytes| - 1] != 0
  {
    if bytes == [] {
      return Some(NotNulTerminated);
    }
    if bytes[|bytes| - 1] != 0 {
      return Some(NotNulTerminated);
    }
    var i := 0;
    while i + 1 < |bytes|
      invariant i + 1 <= |bytes| && 0 !in bytes[..i]
    {
      if bytes[i] == 0 {
        assert bytes[..|bytes| - 1][i] == 0;
        return Some(InteriorNul);
      }
      i := i + 1;
    }
    e := None;
  }
}
