/** Which exception the converters throw, told from the bytes or units at the place where they stop.
 */
module Utf8Errors {
  import opened Basics
  import opened Utf8

  /** How many bytes a first byte promises; zero if it starts no character. */
  function Promised(b: Byte): nat {
    if b <= 0x7f then 1
    else if 0xc0 <= b <= 0xdf then 2
    else if 0xe0 <= b <= 0xef then 3
    else if 0xf0 <= b <= 0xf7 then 4
    else 0
  }

  ghost predicate Trails(s: seq<Byte>, to: nat) {
    to <= |s| && forall i :: 1 <= i < to ==> 0x80 <= s[i] <= 0xbf
  }

  /** The string ends within a character: a first byte and only trail bytes, fewer than promised. */
  ghost predicate CutOff(s: seq<Byte>) {
    s != [] && |s| < Promised(s[0]) && Trails(s, |s|)
  }

  /** All bytes of a character are there. */
  ghost predicate Complete(s: seq<Byte>) {
    s != [] && 0 < Promised(s[0]) <= |s| && Trails(s, Promised(s[0]))
  }

  /** The number such bytes stand for. */
  function Stands(s: seq<Byte>): int
    requires s != [] && Promised(s[0]) <= |s|
  {
    match Promised(s[0])
    case 2 => (s[0] as int - 0xc0) * 64 + (s[1] as int - 0x80)
    case 3 => (s[0] as int - 0xe0) * 4096 + (s[1] as int - 0x80) * 64 + (s[2] as int - 0x80)
    case 4 =>
      (s[0] as int - 0xf0) * 0x4_0000 + (s[1] as int - 0x80) * 4096 + (s[2] as int - 0x80) * 64 + (s[3] as int - 0x80)
    case _ => s[0] as int
  }

  /** Surrogates, the two noncharacters, and numbers beyond the last code point. */
  predicate Forbidden(cp: int) {
    0xd800 <= cp <= 0xdfff || cp == 0xfffe || cp == 0xffff || cp > 0x10ffff
  }

  /** The exception for bytes that start no valid character. */
  ghost function Rightly(s: seq<Byte>): Exception {
    if CutOff(s) then RoomException
    else if Complete(s) && Forbidden(Stands(s)) then CodePointException
    else Utf8Exception
  }

  lemma PromisedIsLength(b: Byte)
    ensures Promised(b) == SequenceLength(b)
  {
  }

  lemma TrailIsTrail(b: Byte)
    ensures IsTrail(b) <==> 0x80 <= b <= 0xbf
  {
  }

  /** What `get_sequence` says of bytes that promise more than one. */
  ghost predicate Got(s: seq<Byte>, r: Step) {
    && (CutOff(s) <==> r == Fail(NotEnoughRoom))
    && (Complete(s) <==> r.Ok?)
    && (r.Ok? ==> r.cp == Stands(s))
    && (r.Fail? ==> r.error == NotEnoughRoom || r.error == IncompleteSequence)
  }

  lemma GotTwo(s: seq<Byte>)
    requires s != [] && Promised(s[0]) == 2
    ensures Got(s, GetSequence2(s))
  {
    if |s| >= 2 {
      TrailIsTrail(s[1]);
      if IsTrail(s[1]) {
        TwoBytes(s[0] - 0xc0, s[1] - 0x80, s);
      }
    }
  }

  lemma GotThree(s: seq<Byte>)
    requires s != [] && Promised(s[0]) == 3
    ensures Got(s, GetSequence3(s))
  {
    if |s| >= 2 {
      TrailIsTrail(s[1]);
      if |s| >= 3 {
        TrailIsTrail(s[2]);
        if IsTrail(s[1]) && IsTrail(s[2]) {
          ThreeBytes(s[0] - 0xe0, s[1] - 0x80, s[2] - 0x80, s);
        }
      }
    }
  }

  lemma GotFour(s: seq<Byte>)
    requires s != [] && Promised(s[0]) == 4
    ensures Got(s, GetSequence4(s))
  {
    if |s| >= 2 {
      TrailIsTrail(s[1]);
      if |s| >= 3 {
        TrailIsTrail(s[2]);
        if |s| >= 4 {
          TrailIsTrail(s[3]);
          if IsTrail(s[1]) && IsTrail(s[2]) && IsTrail(s[3]) {
            FourBytes(s[0] - 0xf0, s[1] - 0x80, s[2] - 0x80, s[3] - 0x80, s);
          }
        }
      }
    }
  }

  /** Bytes that start no valid character raise the exception that fits them: `not_enough_room` if and only if
      the string ends within a character, `invalid_code_point` if and only if a complete one stands for a
      surrogate, U+FFFE, U+FFFF or a number above 0x10ffff, and `invalid_utf8` otherwise. */
  lemma FailsRightly(s: seq<Byte>)
    requires s != [] && ValidateNext(s).Fail?
    ensures ExceptionOf(ValidateNext(s).error) == Rightly(s)
  {
    PromisedIsLength(s[0]);
    var n := Promised(s[0]);
    if n == 2 {
      GotTwo(s);
    } else if n == 3 {
      GotThree(s);
    } else if n == 4 {
      GotFour(s);
    }
  }

  /** `utf8to32` throws exactly when it stops early, and what it throws fits the bytes where it stops. */
  lemma {:induction false} DecodeThrows(s: seq<Byte>)
    ensures Decode(s).Thrown? <==> ValidLength(s) < |s|
    ensures Decode(s).Thrown? ==> Decode(s).exception == Rightly(s[ValidLength(s)..])
    decreases |s|
  {
    if s != [] {
      if ValidateNext(s).Fail? {
        FailsRightly(s);
        assert s[0..] == s;
      } else {
        var n := ValidateNext(s).length;
        StepLength(s);
        DecodeThrows(s[n..]);
        assert s[n..][ValidLength(s[n..])..] == s[ValidLength(s)..];
      }
    }
  }

  /** So does `utf8to16`. */
  lemma {:induction false} To16Throws(s: seq<Byte>)
    ensures To16(s).Thrown? <==> ValidLength(s) < |s|
    ensures To16(s).Thrown? ==> To16(s).exception == Rightly(s[ValidLength(s)..])
    decreases |s|
  {
    if s != [] {
      if ValidateNext(s).Fail? {
        FailsRightly(s);
        assert s[0..] == s;
      } else {
        var n := ValidateNext(s).length;
        StepLength(s);
        To16Throws(s[n..]);
        assert s[n..][ValidLength(s[n..])..] == s[ValidLength(s)..];
      }
    }
  }

  /** `utf32to8` throws, and then `invalid_code_point`, if and only if some number is no code point it knows. */
  lemma {:induction false} EncodeThrows(cps: seq<int>)
    ensures EncodeAll(cps).Thrown? <==> exists i :: 0 <= i < |cps| && (cps[i] < 0 || Forbidden(cps[i]))
    ensures EncodeAll(cps).Thrown? ==> EncodeAll(cps).exception == CodePointException
    decreases |cps|
  {
    if cps != [] {
      EncodeThrows(cps[1..]);
      if Accepted(cps[0]) {
        if i :| 0 <= i < |cps| && (cps[i] < 0 || Forbidden(cps[i])) {
          assert cps[1..][i - 1] == cps[i];
        }
        if i :| 0 <= i < |cps[1..]| && (cps[1..][i] < 0 || Forbidden(cps[1..][i])) {
          assert cps[i + 1] == cps[1..][i];
        }
      }
    }
  }

  // ---------------------------------------------------------------- UTF-16

  /** A surrogate without its partner at the start of `u`. */
  predicate Lone(u: seq<Unit>) {
    u != [] && (0xdc00 <= u[0] <= 0xdfff || (0xd800 <= u[0] <= 0xdbff && (|u| == 1 || !(0xdc00 <= u[1] <= 0xdfff))))
  }

  /** A noncharacter there. */
  predicate Nonchar(u: seq<Unit>) {
    u != [] && u[0] >= 0xfffe
  }

  lemma UnpackExact(u: seq<Unit>)
    requires u != []
    ensures Unpack(u).Bad? <==> Lone(u)
    ensures !Lone(u) ==> (!Accepted(Unpack(u).cp) <==> Nonchar(u)) && 1 <= Unpack(u).length <= |u|
  {
    if IsLeadSurrogate(u[0]) && |u| >= 2 && IsTrailSurrogate(u[1]) {
      JoinedIsPair(u[0], u[1]);
    }
  }

  /** How many units `utf16to8` takes before it stops. */
  function TakenUnits(u: seq<Unit>): (n: nat)
    ensures n <= |u|
    decreases |u|
  {
    if u == [] || Lone(u) || Nonchar(u) then 0 else
    var n := if 0xd800 <= u[0] <= 0xdbff then 2 else 1;
    n + TakenUnits(u[n..])
  }

  /** `utf16to8` throws exactly when it stops early: `invalid_utf16` at a surrogate without its partner, and
      `invalid_code_point` at a noncharacter. */
  lemma {:induction false} To8Throws(u: seq<Unit>)
    ensures To8(u).Thrown? <==> TakenUnits(u) < |u|
    ensures To8(u).Thrown? ==>
              To8(u).exception == if Lone(u[TakenUnits(u)..]) then Utf16Exception else CodePointException
    ensures To8(u).Thrown? ==> Lone(u[TakenUnits(u)..]) || Nonchar(u[TakenUnits(u)..])
    decreases |u|
  {
    if u != [] {
      UnpackExact(u);
      if Lone(u) || Nonchar(u) {
        assert u[0..] == u;
      } else {
        var n := Unpack(u).length;
        assert n == if 0xd800 <= u[0] <= 0xdbff then 2 else 1;
        To8Throws(u[n..]);
        assert u[n..][TakenUnits(u[n..])..] == u[TakenUnits(u)..];
      }
    }
  }
}
