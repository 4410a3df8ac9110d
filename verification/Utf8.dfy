/** The UTF-8 codec of `utf8/core.h` and `utf8/checked.h`. Bits are taken apart by division and
    remainder; parts that are or-ed together do not overlap, so they are added. The two
    noncharacters U+FFFE and U+FFFF are refused, as in the source.
 */
module Utf8 {
  import opened Basics

  type Unit = x: int | 0 <= x < 0x1_0000

  predicate IsTrail(b: Byte) {
    b / 64 == 2
  }

  predicate IsLeadSurrogate(u: int) {
    0xd800 <= u <= 0xdbff
  }

  predicate IsTrailSurrogate(u: int) {
    0xdc00 <= u <= 0xdfff
  }

  /** `is_code_point_valid`. */
  predicate Accepted(cp: int) {
    0 <= cp <= 0x10ffff && !(0xd800 <= cp <= 0xdfff) && cp != 0xfffe && cp != 0xffff
  }

  // ---------------------------------------------------------------- one code point

  datatype Error = NotEnoughRoom | InvalidLead | IncompleteSequence | OverlongSequence | InvalidCodePoint

  datatype Step = Ok(cp: int, length: nat) | Fail(error: Error)

  function SequenceLength(lead: Byte): nat {
    if lead < 0x80 then 1
    else if lead / 32 == 0x6 then 2
    else if lead / 16 == 0xe then 3
    else if lead / 8 == 0x1e then 4
    else 0
  }

  predicate IsOverlong(cp: int, length: nat) {
    if cp < 0x80 then length != 1
    else if cp < 0x800 then length != 2
    else if cp < 0x1_0000 then length != 3
    else false
  }

  /** `get_sequence_2`, `_3` and `_4`. */
  function GetSequence2(s: seq<Byte>): Step
    requires s != []
  {
    if |s| < 2 then Fail(NotEnoughRoom)
    else if !IsTrail(s[1]) then Fail(IncompleteSequence)
    else Ok(s[0] as int * 64 % 0x800 + s[1] % 64, 2)
  }

  function GetSequence3(s: seq<Byte>): Step
    requires s != []
  {
    if |s| < 2 then Fail(NotEnoughRoom)
    else if !IsTrail(s[1]) then Fail(IncompleteSequence)
    else if |s| < 3 then Fail(NotEnoughRoom)
    else if !IsTrail(s[2]) then Fail(IncompleteSequence)
    else Ok(s[0] as int * 4096 % 0x1_0000 + s[1] as int * 64 % 4096 + s[2] % 64, 3)
  }

  function GetSequence4(s: seq<Byte>): Step
    requires s != []
  {
    if |s| < 2 then Fail(NotEnoughRoom)
    else if !IsTrail(s[1]) then Fail(IncompleteSequence)
    else if |s| < 3 then Fail(NotEnoughRoom)
    else if !IsTrail(s[2]) then Fail(IncompleteSequence)
    else if |s| < 4 then Fail(NotEnoughRoom)
    else if !IsTrail(s[3]) then Fail(IncompleteSequence)
    else Ok(s[0] as int * 0x4_0000 % 0x20_0000 + s[1] as int * 4096 % 0x4_0000 + s[2] as int * 64 % 4096 + s[3] % 64, 4)
  }

  function GetSequence(s: seq<Byte>, length: nat): Step
    requires s != []
  {
    if length == 1 then Ok(s[0], 1)
    else if length == 2 then GetSequence2(s)
    else if length == 3 then GetSequence3(s)
    else GetSequence4(s)
  }

  /** `validate_next` at the start of `s`. */
  function ValidateNext(s: seq<Byte>): Step
    requires s != []
  {
    var length := SequenceLength(s[0]);
    if length == 0 then Fail(InvalidLead) else
    var step := GetSequence(s, length);
    if step.Fail? then step
    else if !Accepted(step.cp) then Fail(InvalidCodePoint)
    else if IsOverlong(step.cp, length) then Fail(OverlongSequence)
    else step
  }

  /** The bytes `append` writes for an accepted code point. */
  function Encode(cp: int): (r: seq<Byte>)
    requires Accepted(cp)
    ensures 1 <= |r| <= 4
  {
    if cp < 0x80 then [cp]
    else if cp < 0x800 then [cp / 64 + 0xc0, cp % 64 + 0x80]
    else if cp < 0x1_0000 then [cp / 4096 + 0xe0, cp / 64 % 64 + 0x80, cp % 64 + 0x80]
    else [cp / 0x4_0000 + 0xf0, cp / 4096 % 64 + 0x80, cp / 64 % 64 + 0x80, cp % 64 + 0x80]
  }

  // The digits, base 64, of a code point and of a sequence agree.

  lemma Digits(cp: nat)
    ensures cp == cp / 64 * 64 + cp % 64
    ensures cp == cp / 4096 * 4096 + cp / 64 % 64 * 64 + cp % 64
    ensures cp == cp / 0x4_0000 * 0x4_0000 + cp / 4096 % 64 * 4096 + cp / 64 % 64 * 64 + cp % 64
  {
    var q, r := cp / 64, cp / 4096;
    assert r == q / 64 && q == r * 64 + q % 64 && r == r / 64 * 64 + r % 64;
    assert cp / 0x4_0000 == r / 64;
  }

  lemma TwoBytes(a: nat, b: nat, s: seq<Byte>)
    requires a < 32 && b < 64 && |s| >= 2 && s[0] == a + 0xc0 && s[1] == b + 0x80
    ensures SequenceLength(s[0]) == 2 && GetSequence2(s) == Ok(a * 64 + b, 2)
  {
  }

  lemma ThreeBytes(a: nat, b: nat, c: nat, s: seq<Byte>)
    requires a < 16 && b < 64 && c < 64 && |s| >= 3 && s[0] == a + 0xe0 && s[1] == b + 0x80 && s[2] == c + 0x80
    ensures SequenceLength(s[0]) == 3 && GetSequence3(s) == Ok(a * 4096 + b * 64 + c, 3)
  {
  }

  lemma FourBytes(a: nat, b: nat, c: nat, d: nat, s: seq<Byte>)
    requires a < 8 && b < 64 && c < 64 && d < 64 && |s| >= 4
    requires s[0] == a + 0xf0 && s[1] == b + 0x80 && s[2] == c + 0x80 && s[3] == d + 0x80
    ensures SequenceLength(s[0]) == 4 && GetSequence4(s) == Ok(a * 0x4_0000 + b * 4096 + c * 64 + d, 4)
  {
  }

  /** What `append` writes, `validate_next` reads, whatever follows. */
  lemma EncodeValid(cp: int, rest: seq<Byte>)
    requires Accepted(cp)
    ensures ValidateNext(Encode(cp) + rest) == Ok(cp, |Encode(cp)|)
  {
    ReadBack(cp, Encode(cp) + rest);
  }

  lemma ReadBack(cp: int, s: seq<Byte>)
    requires Accepted(cp) && |s| >= |Encode(cp)| && forall i :: 0 <= i < |Encode(cp)| ==> s[i] == Encode(cp)[i]
    ensures ValidateNext(s) == Ok(cp, |Encode(cp)|)
  {
    var e := Encode(cp);
    assert s[0] == e[0];
    if cp >= 0x80 {
      Digits(cp);
      assert s[1] == e[1];
      if cp < 0x800 {
        TwoBytes(cp / 64, cp % 64, s);
      } else {
        assert s[2] == e[2];
        if cp < 0x1_0000 {
          ThreeBytes(cp / 4096, cp / 64 % 64, cp % 64, s);
        } else {
          assert s[3] == e[3];
          FourBytes(cp / 0x4_0000, cp / 4096 % 64, cp / 64 % 64, cp % 64, s);
        }
      }
    }
  }

  lemma Digits2(a: nat, b: nat)
    requires b < 64
    ensures (a * 64 + b) / 64 == a && (a * 64 + b) % 64 == b
  {
  }

  lemma Digits4(a: nat, b: nat, c: nat, d: nat, cp: nat)
    requires b < 64 && c < 64 && d < 64 && cp == a * 0x4_0000 + b * 4096 + c * 64 + d
    ensures cp / 0x4_0000 == a && cp / 4096 % 64 == b && cp / 64 % 64 == c && cp % 64 == d
    ensures a == 0 ==> cp / 4096 == b
  {
    var q, r := a * 4096 + b * 64 + c, a * 64 + b;
    Digits2(q, d);
    Digits2(r, c);
    Digits2(a, b);
    assert cp == q * 64 + d && q == r * 64 + c;
    assert cp / 4096 == r;
    assert cp / 0x4_0000 == a;
  }

  /** What `validate_next` accepts is what `append` writes for the code point it returns. */
  lemma ValidIsEncode(s: seq<Byte>)
    requires s != [] && ValidateNext(s).Ok?
    ensures var r := ValidateNext(s); Accepted(r.cp) && r.length <= |s| && Encode(r.cp) == s[..r.length]
  {
    var length := SequenceLength(s[0]);
    if length == 2 {
      WrittenTwo(s);
    } else if length == 3 {
      WrittenThree(s);
    } else if length == 4 {
      WrittenFour(s);
    }
  }

  lemma WrittenTwo(s: seq<Byte>)
    requires s != [] && SequenceLength(s[0]) == 2 && ValidateNext(s).Ok?
    ensures var r := ValidateNext(s); Accepted(r.cp) && r.length == 2 <= |s| && Encode(r.cp) == s[..2]
  {
    var a, b := s[0] - 0xc0, s[1] - 0x80;
    TwoBytes(a, b, s);
    Digits2(a, b);
  }

  lemma WrittenThree(s: seq<Byte>)
    requires s != [] && SequenceLength(s[0]) == 3 && ValidateNext(s).Ok?
    ensures var r := ValidateNext(s); Accepted(r.cp) && r.length == 3 <= |s| && Encode(r.cp) == s[..3]
  {
    var a: int, b: int, c: int := s[0] - 0xe0, s[1] - 0x80, s[2] - 0x80;
    ThreeBytes(a, b, c, s);
    Digits4(0, a, b, c, a * 4096 + b * 64 + c);
  }

  lemma WrittenFour(s: seq<Byte>)
    requires s != [] && SequenceLength(s[0]) == 4 && ValidateNext(s).Ok?
    ensures var r := ValidateNext(s); Accepted(r.cp) && r.length == 4 <= |s| && Encode(r.cp) == s[..4]
  {
    var a: int, b: int, c: int, d: int := s[0] - 0xf0, s[1] - 0x80, s[2] - 0x80, s[3] - 0x80;
    FourBytes(a, b, c, d, s);
    Digits4(a, b, c, d, a * 0x4_0000 + b * 4096 + c * 64 + d);
  }

  // ---------------------------------------------------------------- the standard's grammar

  predicate Tail(b: Byte) {
    0x80 <= b <= 0xbf
  }

  /** The length of the UTF-8 character at the start of `s` in the grammar of section 4 of RFC
      3629, or zero if there is none. */
  function GrammarLength(s: seq<Byte>): nat
    requires s != []
  {
    if s[0] <= 0x7f then 1
    else if |s| >= 2 && 0xc2 <= s[0] <= 0xdf && Tail(s[1]) then 2
    else if |s| >= 3 && Tail(s[2])
            && ((s[0] == 0xe0 && 0xa0 <= s[1] <= 0xbf) || (0xe1 <= s[0] <= 0xec && Tail(s[1]))
                || (s[0] == 0xed && 0x80 <= s[1] <= 0x9f) || (0xee <= s[0] <= 0xef && Tail(s[1]))) then 3
    else if |s| >= 4 && Tail(s[2]) && Tail(s[3])
            && ((s[0] == 0xf0 && 0x90 <= s[1] <= 0xbf) || (0xf1 <= s[0] <= 0xf3 && Tail(s[1]))
                || (s[0] == 0xf4 && 0x80 <= s[1] <= 0x8f)) then 4
    else 0
  }

  /** The encodings of U+FFFE and U+FFFF. */
  predicate Noncharacter(s: seq<Byte>) {
    |s| >= 3 && s[0] == 0xef && s[1] == 0xbf && s[2] >= 0xbe
  }

  /** `validate_next` accepts exactly what the grammar of RFC 3629 does, except for the two
      noncharacters, and agrees on the length. */
  lemma GrammarAgrees(s: seq<Byte>)
    requires s != []
    ensures ValidateNext(s).Ok? <==> GrammarLength(s) > 0 && !Noncharacter(s)
    ensures ValidateNext(s).Ok? ==> ValidateNext(s).length == GrammarLength(s)
  {
    var length := SequenceLength(s[0]);
    if length == 2 && |s| >= 2 && IsTrail(s[1]) {
      TwoBytes(s[0] - 0xc0, s[1] - 0x80, s);
    } else if length == 3 && |s| >= 3 && IsTrail(s[1]) && IsTrail(s[2]) {
      ThreeBytes(s[0] - 0xe0, s[1] - 0x80, s[2] - 0x80, s);
    } else if length == 4 && |s| >= 4 && IsTrail(s[1]) && IsTrail(s[2]) && IsTrail(s[3]) {
      FourBytes(s[0] - 0xf0, s[1] - 0x80, s[2] - 0x80, s[3] - 0x80, s);
    }
  }

  // ---------------------------------------------------------------- whole strings

  datatype Exception = RoomException | Utf8Exception | CodePointException | Utf16Exception

  datatype Result<T> = Value(value: T) | Thrown(exception: Exception)

  /** The exceptions `next` throws. */
  function ExceptionOf(e: Error): Exception {
    match e
    case NotEnoughRoom => RoomException
    case InvalidCodePoint => CodePointException
    case _ => Utf8Exception
  }

  function Before<T>(out: seq<T>, r: Result<seq<T>>): Result<seq<T>> {
    if r.Value? then Value(out + r.value) else r
  }

  lemma BeforeTwice<T>(a: seq<T>, b: seq<T>, r: Result<seq<T>>)
    ensures Before(a, Before(b, r)) == Before(a + b, r)
  {
    if r.Value? {
      assert a + (b + r.value) == (a + b) + r.value;
    }
  }

  lemma BeforeNothing<T>(a: seq<T>)
    ensures Before(a, Value([])) == Value(a)
  {
    assert a + [] == a;
  }

  lemma BeforeAll<T>(r: Result<seq<T>>)
    ensures Before([], r) == r
  {
    if r.Value? {
      assert [] + r.value == r.value;
    }
  }

  ghost predicate AllAccepted(cps: seq<int>) {
    forall i :: 0 <= i < |cps| ==> Accepted(cps[i])
  }

  /** The code points of a byte string, or the first exception. */
  function Decode(s: seq<Byte>): Result<seq<int>>
    decreases |s|
  {
    if s == [] then Value([]) else
    var r := ValidateNext(s);
    if r.Fail? then Thrown(ExceptionOf(r.error)) else
    StepLength(s);
    Before([r.cp], Decode(s[r.length..]))
  }

  lemma StepLength(s: seq<Byte>)
    requires s != [] && ValidateNext(s).Ok?
    ensures 1 <= ValidateNext(s).length <= |s|
  {
  }

  /** The bytes of a list of code points, or the first exception. */
  function EncodeAll(cps: seq<int>): Result<seq<Byte>> {
    if cps == [] then Value([])
    else if !Accepted(cps[0]) then Thrown(CodePointException)
    else Before(Encode(cps[0]), EncodeAll(cps[1..]))
  }

  /** `utf8to32`. */
  method Utf8To32(s: seq<Byte>) returns (r: Result<seq<int>>)
    ensures r == Decode(s)
  {
    var it := 0;
    var out: seq<int> := [];
    assert s[0..] == s;
    BeforeAll(Decode(s));
    while it < |s|
      invariant 0 <= it <= |s| && Decode(s) == Before(out, Decode(s[it..]))
    {
      var step := ValidateNext(s[it..]);
      if step.Fail? {
        return Thrown(ExceptionOf(step.error));
      }
      StepLength(s[it..]);
      assert s[it..][step.length..] == s[it + step.length..];
      BeforeTwice(out, [step.cp], Decode(s[it + step.length..]));
      out := out + [step.cp];
      it := it + step.length;
    }
    BeforeNothing(out);
    r := Value(out);
  }

  /** `utf32to8`. */
  method Utf32To8(cps: seq<int>) returns (r: Result<seq<Byte>>)
    ensures r == EncodeAll(cps)
  {
    var it := 0;
    var out: seq<Byte> := [];
    assert cps[0..] == cps;
    BeforeAll(EncodeAll(cps));
    while it < |cps|
      invariant 0 <= it <= |cps| && EncodeAll(cps) == Before(out, EncodeAll(cps[it..]))
    {
      if !Accepted(cps[it]) {
        return Thrown(CodePointException);
      }
      assert cps[it..][1..] == cps[it + 1..];
      BeforeTwice(out, Encode(cps[it]), EncodeAll(cps[it + 1..]));
      out := out + Encode(cps[it]);
      it := it + 1;
    }
    BeforeNothing(out);
    r := Value(out);
  }

  /** Encoding, then decoding, gives the code points back: the decomposition of a string into
      encoded code points is unique. */
  lemma {:induction false} DecodeOfEncode(cps: seq<int>)
    requires EncodeAll(cps).Value?
    ensures Decode(EncodeAll(cps).value) == Value(cps) && AllAccepted(cps)
    decreases |cps|
  {
    if cps != [] {
      DecodeOfEncode(cps[1..]);
      var e, rest := Encode(cps[0]), EncodeAll(cps[1..]).value;
      EncodeValid(cps[0], rest);
      assert (e + rest)[|e|..] == rest;
      assert [cps[0]] + cps[1..] == cps;
    }
  }

  /** Decoding, then encoding, gives the bytes back. */
  lemma {:induction false} EncodeOfDecode(s: seq<Byte>)
    requires Decode(s).Value?
    ensures EncodeAll(Decode(s).value) == Value(s) && AllAccepted(Decode(s).value)
    decreases |s|
  {
    if s != [] {
      var r := ValidateNext(s);
      ValidIsEncode(s);
      StepLength(s);
      EncodeOfDecode(s[r.length..]);
      var rest := Decode(s[r.length..]).value;
      EncodeFirst(r.cp, rest);
      Split(s, r.length);
    }
  }

  lemma Split(s: seq<Byte>, k: nat)
    requires k <= |s|
    ensures s[..k] + s[k..] == s
  {
  }

  lemma EncodeFirst(cp: int, rest: seq<int>)
    requires Accepted(cp)
    ensures EncodeAll([cp] + rest) == Before(Encode(cp), EncodeAll(rest))
  {
    assert ([cp] + rest)[1..] == rest;
  }

  /** The position at which `find_invalid` stops. */
  function ValidLength(s: seq<Byte>): (n: nat)
    ensures n <= |s|
    decreases |s|
  {
    if s == [] || ValidateNext(s).Fail? then 0 else
    StepLength(s);
    ValidateNext(s).length + ValidLength(s[ValidateNext(s).length..])
  }

  /** `find_invalid`. */
  method FindInvalid(s: seq<Byte>) returns (n: nat)
    ensures n == ValidLength(s)
  {
    n := 0;
    assert s[0..] == s;
    while n < |s|
      invariant 0 <= n <= |s| && ValidLength(s) == n + ValidLength(s[n..])
    {
      var step := ValidateNext(s[n..]);
      if step.Fail? {
        return;
      }
      StepLength(s[n..]);
      assert s[n..][step.length..] == s[n + step.length..];
      n := n + step.length;
    }
  }

  /** What lies before the stop decodes, and what lies there does not start a code point. */
  lemma {:induction false} StopsAtFirstInvalid(s: seq<Byte>)
    ensures var n := ValidLength(s); Decode(s[..n]).Value? && (n < |s| ==> ValidateNext(s[n..]).Fail?)
    decreases |s|
  {
    if s != [] && ValidateNext(s).Ok? {
      var r := ValidateNext(s);
      ValidIsEncode(s);
      StepLength(s);
      StopsAtFirstInvalid(s[r.length..]);
      StopsLater(s, r.cp, r.length, ValidLength(s[r.length..]));
    }
  }

  lemma StopsLater(s: seq<Byte>, cp: int, k: nat, m: nat)
    requires Accepted(cp) && k + m <= |s| && Encode(cp) == s[..k]
    requires Decode(s[k..][..m]).Value? && (k + m < |s| ==> ValidateNext(s[k..][m..]).Fail?)
    ensures Decode(s[..k + m]).Value? && (k + m < |s| ==> ValidateNext(s[k + m..]).Fail?)
  {
    assert s[..k + m] == Encode(cp) + s[k..][..m];
    DecodeFirst(cp, s[k..][..m]);
    assert s[k + m..] == s[k..][m..];
  }

  lemma DecodeFirst(cp: int, rest: seq<Byte>)
    requires Accepted(cp)
    ensures Decode(Encode(cp) + rest) == Before([cp], Decode(rest))
  {
    EncodeValid(cp, rest);
    assert (Encode(cp) + rest)[|Encode(cp)|..] == rest;
  }

  /** A string passes `find_invalid` to its end exactly when it is a concatenation of `append`
      outputs. */
  lemma ValidIff(s: seq<Byte>)
    ensures ValidLength(s) == |s| <==> Decode(s).Value?
    ensures ValidLength(s) == |s| <==> exists cps :: EncodeAll(cps) == Value(s)
  {
    DecodesWhole(s);
    if Decode(s).Value? {
      EncodeOfDecode(s);
    }
    if cps :| EncodeAll(cps) == Value(s) {
      DecodeOfEncode(cps);
    }
  }

  lemma {:induction false} DecodesWhole(s: seq<Byte>)
    ensures ValidLength(s) == |s| <==> Decode(s).Value?
    decreases |s|
  {
    if s != [] && ValidateNext(s).Ok? {
      StepLength(s);
      DecodesWhole(s[ValidateNext(s).length..]);
    }
  }

  // ---------------------------------------------------------------- UTF-16

  /** The code units of a code point: itself, or a surrogate pair. */
  function Units(cp: int): (r: seq<Unit>)
    requires Accepted(cp)
  {
    if cp > 0xffff then [cp / 0x400 + 0xd7c0, cp % 0x400 + 0xdc00] else [cp]
  }

  function UnitsAll(cps: seq<int>): (r: seq<Unit>)
    requires AllAccepted(cps)
  {
    if cps == [] then [] else Units(cps[0]) + UnitsAll(cps[1..])
  }

  /** A pair put together with unsigned 32 bit wrap-around, as the source's constant needs. */
  function Joined(lead: Unit, trail: Unit): int {
    (lead as int * 0x400 + trail + (0x1_0000 - 0xd800 * 0x400 - 0xdc00) % 0x1_0000_0000) % 0x1_0000_0000
  }

  datatype Unpacked = Point(cp: int, length: nat) | Bad

  /** One round of `utf16to8`, before `append`. */
  function Unpack(u: seq<Unit>): Unpacked
    requires u != []
  {
    if IsLeadSurrogate(u[0]) then
      if |u| < 2 || !IsTrailSurrogate(u[1]) then Bad else Point(Joined(u[0], u[1]), 2)
    else if IsTrailSurrogate(u[0]) then Bad
    else Point(u[0], 1)
  }

  /** The code points of a unit string, or the first exception. */
  function FromUnits(u: seq<Unit>): Result<seq<int>> {
    if u == [] then Value([]) else
    match Unpack(u)
    case Bad => Thrown(Utf16Exception)
    case Point(cp, n) => if Accepted(cp) then Before([cp], FromUnits(u[n..])) else Thrown(CodePointException)
  }

  lemma JoinedIsPair(lead: Unit, trail: Unit)
    requires IsLeadSurrogate(lead) && IsTrailSurrogate(trail)
    ensures Joined(lead, trail) == 0x1_0000 + (lead - 0xd800) * 0x400 + (trail - 0xdc00)
  {
    var x: int := lead;
    var sum := x * 0x400 + trail + (0x1_0000 - 0xd800 * 0x400 - 0xdc00);
    assert 0x1_0000 <= sum <= 0x10ffff;
  }

  /** Reading the units of a code point gives it back, whatever follows. */
  lemma UnpackUnits(cp: int, rest: seq<Unit>)
    requires Accepted(cp)
    ensures Unpack(Units(cp) + rest) == Point(cp, |Units(cp)|)
  {
    if cp > 0xffff {
      JoinedIsPair(cp / 0x400 + 0xd7c0, cp % 0x400 + 0xdc00);
    }
  }

  /** What is read as an accepted code point is what that code point is written as. */
  lemma UnitsOfUnpack(u: seq<Unit>)
    requires u != [] && Unpack(u).Point? && Accepted(Unpack(u).cp)
    ensures Unpack(u).length <= |u| && Units(Unpack(u).cp) == u[..Unpack(u).length]
  {
    if IsLeadSurrogate(u[0]) {
      JoinedIsPair(u[0], u[1]);
    }
  }

  lemma {:induction false} FromUnitsOfUnits(cps: seq<int>)
    requires AllAccepted(cps)
    ensures FromUnits(UnitsAll(cps)) == Value(cps)
    decreases |cps|
  {
    if cps != [] {
      FromUnitsOfUnits(cps[1..]);
      var e, rest := Units(cps[0]), UnitsAll(cps[1..]);
      UnpackUnits(cps[0], rest);
      assert (e + rest)[|e|..] == rest;
      assert [cps[0]] + cps[1..] == cps;
    }
  }

  lemma FromUnitsStep(u: seq<Unit>)
    requires u != [] && FromUnits(u).Value?
    ensures var r := Unpack(u);
            && r.Point? && Accepted(r.cp) && 1 <= r.length <= |u| && FromUnits(u[r.length..]).Value?
            && FromUnits(u).value == [r.cp] + FromUnits(u[r.length..]).value
  {
  }

  lemma {:induction false} UnitsOfFromUnits(u: seq<Unit>)
    requires FromUnits(u).Value?
    ensures AllAccepted(FromUnits(u).value) && UnitsAll(FromUnits(u).value) == u
    decreases |u|
  {
    if u != [] {
      FromUnitsStep(u);
      UnitsOfUnpack(u);
      var cp, n := Unpack(u).cp, Unpack(u).length;
      UnitsOfFromUnits(u[n..]);
      UnitsJoin(u, cp, n, FromUnits(u[n..]).value);
    }
  }

  lemma UnitsJoin(u: seq<Unit>, cp: int, n: nat, rest: seq<int>)
    requires Accepted(cp) && AllAccepted(rest) && n <= |u| && Units(cp) == u[..n] && UnitsAll(rest) == u[n..]
    ensures AllAccepted([cp] + rest) && UnitsAll([cp] + rest) == u
  {
    UnitsFirst(cp, rest);
    assert u[..n] + u[n..] == u;
  }

  lemma UnitsFirst(cp: int, rest: seq<int>)
    requires Accepted(cp) && AllAccepted(rest)
    ensures AllAccepted([cp] + rest) && UnitsAll([cp] + rest) == Units(cp) + UnitsAll(rest)
  {
    assert ([cp] + rest)[1..] == rest;
  }

  /** What `utf8to16` writes for a byte string, or the first exception. */
  function To16(s: seq<Byte>): Result<seq<Unit>>
    decreases |s|
  {
    if s == [] then Value([]) else
    var r := ValidateNext(s);
    if r.Fail? then Thrown(ExceptionOf(r.error)) else
    StepLength(s);
    Before(Units(r.cp), To16(s[r.length..]))
  }

  /** What `utf16to8` writes for a unit string, or the first exception. */
  function To8(u: seq<Unit>): Result<seq<Byte>>
    decreases |u|
  {
    if u == [] then Value([]) else
    match Unpack(u)
    case Bad => Thrown(Utf16Exception)
    case Point(cp, n) => if Accepted(cp) then Before(Encode(cp), To8(u[n..])) else Thrown(CodePointException)
  }

  lemma To16Step(s: seq<Byte>, it: nat)
    requires it < |s| && ValidateNext(s[it..]).Ok?
    ensures var r := ValidateNext(s[it..]);
            1 <= r.length <= |s| - it && Accepted(r.cp)
              && To16(s[it..]) == Before(Units(r.cp), To16(s[it + r.length..]))
  {
    var n := ValidateNext(s[it..]).length;
    StepLength(s[it..]);
    assert s[it..][n..] == s[it + n..];
  }

  /** Write a surrogate pair or the code point itself. */
  method WriteUnits(cp: int, out: seq<Unit>) returns (r: seq<Unit>)
    requires Accepted(cp)
    ensures r == out + Units(cp)
  {
    if cp > 0xffff {
      r := out + [cp / 0x400 + 0xd7c0, cp % 0x400 + 0xdc00];
    } else {
      r := out + [cp];
    }
  }

  /** `utf8to16`. */
  method Utf8To16(s: seq<Byte>) returns (r: Result<seq<Unit>>)
    ensures r == To16(s)
  {
    var it := 0;
    var out: seq<Unit> := [];
    assert s[0..] == s;
    BeforeAll(To16(s));
    while it < |s|
      invariant 0 <= it <= |s| && To16(s) == Before(out, To16(s[it..]))
    {
      var step := ValidateNext(s[it..]);
      if step.Fail? {
        return Thrown(ExceptionOf(step.error));
      }
      To16Step(s, it);
      BeforeTwice(out, Units(step.cp), To16(s[it + step.length..]));
      out := WriteUnits(step.cp, out);
      it := it + step.length;
    }
    BeforeNothing(out);
    r := Value(out);
  }

  /** `utf16to8`. */
  method Utf16To8(u: seq<Unit>) returns (r: Result<seq<Byte>>)
    ensures r == To8(u)
  {
    var it := 0;
    var out: seq<Byte> := [];
    assert u[0..] == u;
    BeforeAll(To8(u));
    while it < |u|
      invariant 0 <= it <= |u| && To8(u) == Before(out, To8(u[it..]))
    {
      ghost var rest := u[it..];
      assert |u| - it >= 2 ==> rest[1] == u[it + 1];
      var cp: int, n := u[it], 1;
      if IsLeadSurrogate(cp) {
        if it + 1 == |u| || !IsTrailSurrogate(u[it + 1]) {
          return Thrown(Utf16Exception);
        }
        cp, n := Joined(u[it], u[it + 1]), 2;
      } else if IsTrailSurrogate(cp) {
        return Thrown(Utf16Exception);
      }
      if !Accepted(cp) {
        return Thrown(CodePointException);
      }
      assert rest[n..] == u[it + n..];
      BeforeTwice(out, Encode(cp), To8(u[it + n..]));
      out := out + Encode(cp);
      it := it + n;
    }
    BeforeNothing(out);
    r := Value(out);
  }

  /** `utf8to16` writes the units of the decoded code points. */
  lemma {:induction false} To16IsUnits(s: seq<Byte>)
    ensures To16(s).Value? <==> Decode(s).Value?
    ensures Decode(s).Value? ==> AllAccepted(Decode(s).value) && To16(s).value == UnitsAll(Decode(s).value)
    decreases |s|
  {
    if s != [] && ValidateNext(s).Ok? {
      var r := ValidateNext(s);
      StepLength(s);
      To16IsUnits(s[r.length..]);
      if Decode(s[r.length..]).Value? {
        UnitsFirst(r.cp, Decode(s[r.length..]).value);
      }
    }
  }

  /** `utf16to8` writes the encoded code points of the units. */
  lemma {:induction false} To8IsEncode(u: seq<Unit>)
    ensures To8(u).Value? <==> FromUnits(u).Value?
    ensures FromUnits(u).Value? ==> To8(u) == EncodeAll(FromUnits(u).value)
    decreases |u|
  {
    if u != [] && Unpack(u).Point? && Accepted(Unpack(u).cp) {
      var r := Unpack(u);
      To8IsEncode(u[r.length..]);
      if FromUnits(u[r.length..]).Value? {
        EncodeFirst(r.cp, FromUnits(u[r.length..]).value);
      }
    }
  }

  /** Every valid byte string survives the way through UTF-16. */
  lemma ThroughUtf16(s: seq<Byte>)
    requires Decode(s).Value?
    ensures To16(s).Value? && To8(To16(s).value) == Value(s)
  {
    To16IsUnits(s);
    EncodeOfDecode(s);
    FromUnitsOfUnits(Decode(s).value);
    To8IsEncode(To16(s).value);
  }

  /** Every unit string `utf16to8` accepts survives the way through UTF-8. */
  lemma ThroughUtf8(u: seq<Unit>)
    requires To8(u).Value?
    ensures To16(To8(u).value) == Value(u)
  {
    To8IsEncode(u);
    UnitsOfFromUnits(u);
    DecodeOfEncode(FromUnits(u).value);
    To16IsUnits(To8(u).value);
  }
}
