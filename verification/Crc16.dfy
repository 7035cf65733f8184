/**
 The CRC of crc16.cpp and what it is: division, bit by bit, by x^16 + x^12 + x^5 + 1, the generator polynomial of
 section 2 of ITU-T V.41.
 */
module Crc16 {

  // ---------------------------------------------------------------- the definition, bit by bit

  function Xor(a: bv16, b: bv16): bv16 {
    a ^ b
  }

  predicate Top(crc: bv16) {
    crc & 0x8000 != 0
  }

  function Shift(crc: bv16): bv16 {
    crc << 1
  }

  /** One bit of the message has been brought into the top bit of the register. */
  function Step(crc: bv16): bv16 {
    if Top(crc) then Xor(Shift(crc), 0x1021) else Shift(crc)
  }

  function Steps(crc: bv16): bv16 {
    Step(Step(Step(Step(Step(Step(Step(Step(crc))))))))
  }

  /** A byte: its bits are added to the top of the register, which is then shifted eight times. */
  function Bitwise(crc: bv16, data: bv8): bv16 {
    Steps(Xor(crc, (data as bv16) << 8))
  }

  function Crc(crc: bv16, message: seq<bv8>): bv16 {
    if message == [] then crc else Bitwise(Crc(crc, message[..|message| - 1]), message[|message| - 1])
  }

  // ---------------------------------------------------------------- the code

  /** crc16Update: all eight steps at once. */
  method Update(crc: bv16, data: bv8) returns (r: bv16)
    ensures r == Bitwise(crc, data)
  {
    var x := ((crc >> 8) ^ (data as bv16)) & 0xff;
    x := x ^ (x >> 4);
    r := (crc << 8) ^ (x << 12) ^ (x << 5) ^ x;
  }

  method Crc16(message: seq<bv8>) returns (result: bv16)
    ensures result == Crc(0xffff, message)
  {
    result := 0xffff;
    for i := 0 to |message|
      invariant result == Crc(0xffff, message[..i])
    {
      result := Update(result, message[i]);
      assert message[..i + 1][..i] == message[..i];
    }
    assert message[..|message|] == message;
  }

  // ---------------------------------------------------------------- linearity

  lemma Xors(x: bv16, y: bv16, g: bv16)
    ensures Xor(Xor(x, g), y) == Xor(Xor(x, y), g) && Xor(x, Xor(y, g)) == Xor(Xor(x, y), g)
            && Xor(Xor(x, g), Xor(y, g)) == Xor(x, y)
  {
  }

  lemma ShiftXor(a: bv16, b: bv16)
    ensures Shift(Xor(a, b)) == Xor(Shift(a), Shift(b))
  {
  }

  lemma TopXor(a: bv16, b: bv16)
    ensures Top(Xor(a, b)) == (Top(a) != Top(b))
  {
  }

  lemma StepLinear(a: bv16, b: bv16)
    ensures Xor(Step(a), Step(b)) == Step(Xor(a, b))
  {
    ShiftXor(a, b);
    TopXor(a, b);
    Xors(Shift(a), Shift(b), 0x1021);
    hide Top, Shift, Xor;
  }

  lemma StepsLinear(a: bv16, b: bv16)
    ensures Xor(Steps(a), Steps(b)) == Steps(Xor(a, b))
  {
    hide Step, Xor;
    StepLinear(a, b);
    var a1, b1 := Step(a), Step(b);
    StepLinear(a1, b1);
    var a2, b2 := Step(a1), Step(b1);
    StepLinear(a2, b2);
    var a3, b3 := Step(a2), Step(b2);
    StepLinear(a3, b3);
    var a4, b4 := Step(a3), Step(b3);
    StepLinear(a4, b4);
    var a5, b5 := Step(a4), Step(b4);
    StepLinear(a5, b5);
    var a6, b6 := Step(a5), Step(b5);
    StepLinear(a6, b6);
    StepLinear(Step(a6), Step(b6));
  }

  lemma ByteXor(d1: bv8, d2: bv8)
    ensures Xor((d1 as bv16) << 8, (d2 as bv16) << 8) == ((d1 ^ d2) as bv16) << 8
  {
  }

  lemma XorLaws(a: bv16, b: bv16, c: bv16)
    ensures Xor(Xor(a, b), c) == Xor(a, Xor(b, c)) && Xor(a, b) == Xor(b, a)
  {
  }

  lemma Regroup(a: bv16, b: bv16, c: bv16, d: bv16)
    ensures Xor(Xor(a, b), Xor(c, d)) == Xor(Xor(a, c), Xor(b, d))
  {
    hide Xor;
    XorLaws(a, b, Xor(c, d));
    XorLaws(b, c, d);
    XorLaws(c, b, d);
    XorLaws(a, c, Xor(b, d));
  }

  /** The difference of two registers is the register of the differences. */
  lemma Linear(c1: bv16, d1: bv8, c2: bv16, d2: bv8)
    ensures Xor(Bitwise(c1, d1), Bitwise(c2, d2)) == Bitwise(Xor(c1, c2), d1 ^ d2)
  {
    ByteXor(d1, d2);
    Regroup(c1, (d1 as bv16) << 8, c2, (d2 as bv16) << 8);
    StepsLinear(Xor(c1, (d1 as bv16) << 8), Xor(c2, (d2 as bv16) << 8));
    hide Xor, Steps;
  }

  // ---------------------------------------------------------------- what is detected

  lemma {:induction false} CrcConcat(c: bv16, a: seq<bv8>, b: seq<bv8>)
    ensures Crc(c, a + b) == Crc(Crc(c, a), b)
  {
    hide Bitwise;
    if b == [] {
      assert a + b == a;
    } else {
      CrcConcat(c, a, b[..|b| - 1]);
      assert (a + b)[..|a + b| - 1] == a + b[..|b| - 1];
    }
  }

  lemma CrcThree(c: bv16, x: bv8, y: bv8, z: bv8)
    ensures Crc(c, [x, y]) == Bitwise(Bitwise(c, x), y)
    ensures Crc(c, [x, y, z]) == Bitwise(Bitwise(Bitwise(c, x), y), z)
  {
    hide Bitwise;
    assert [x, y, z][..2] == [x, y] && [x, y][..1] == [x] && [x][..0] == [];
    assert Crc(c, [x]) == Bitwise(Crc(c, []), x);
    assert Crc(c, [x, y]) == Bitwise(Crc(c, [x]), y);
    assert Crc(c, [x, y, z]) == Bitwise(Crc(c, [x, y]), z);
  }

  /** The two bytes of a CRC, most significant first. */
  function High(crc: bv16): bv8 {
    (crc >> 8) as bv8
  }

  function Low(crc: bv16): bv8 {
    (crc & 0xff) as bv8
  }

  lemma ZeroesFor(crc: bv16, a: bv8, b: bv8, high: bv8, low: bv8)
    requires high == (crc >> 8) as bv8 && low == (crc & 0xff) as bv8
    ensures Bitwise(Bitwise(crc, a), b) == 0 <==> a == high && b == low
  {
  }

  lemma Zeroes(crc: bv16, a: bv8, b: bv8)
    ensures Bitwise(Bitwise(crc, a), b) == 0 <==> a == High(crc) && b == Low(crc)
  {
    hide Bitwise;
    ZeroesFor(crc, a, b, High(crc), Low(crc));
  }

  /** A message followed by two more bytes has CRC zero if and only if they are its CRC, most significant byte first. */
  lemma AppendIff(message: seq<bv8>, a: bv8, b: bv8)
    ensures var crc := Crc(0xffff, message);
            Crc(0xffff, message + [a, b]) == 0 <==> a == High(crc) && b == Low(crc)
  {
    hide Bitwise, High, Low;
    Zeroes(Crc(0xffff, message), a, b);
    CrcConcat(0xffff, message, [a, b]);
    CrcThree(Crc(0xffff, message), a, b, 0);
  }

  lemma Cancel(a: bv16, b: bv16)
    ensures Xor(Xor(a, b), b) == a
  {
  }

  lemma Neutral(a: bv16)
    ensures Xor(0, a) == a && Xor(a, a) == 0
  {
  }

  lemma SameIff(a: bv16, b: bv16)
    ensures Xor(a, b) == 0 <==> a == b
  {
    hide Xor;
    Cancel(a, b);
    Neutral(a);
    Neutral(b);
  }

  lemma NothingHidden(c: bv16)
    ensures Bitwise(c, 0) == 0 <==> c == 0
  {
  }

  lemma NoDifference(d: bv8)
    ensures d ^ d == 0
  {
  }

  lemma OneKeeps(c1: bv16, c2: bv16, data: bv8)
    ensures Bitwise(c1, data) == Bitwise(c2, data) <==> c1 == c2
  {
    hide Bitwise, Xor;
    Linear(c1, data, c2, data);
    NoDifference(data);
    NothingHidden(Xor(c1, c2));
    SameIff(c1, c2);
    SameIff(Bitwise(c1, data), Bitwise(c2, data));
  }

  /** Equal bytes that follow cannot hide a difference. */
  lemma {:induction false} TailKeeps(c1: bv16, c2: bv16, tail: seq<bv8>)
    ensures Crc(c1, tail) == Crc(c2, tail) <==> c1 == c2
  {
    hide Bitwise;
    if tail != [] {
      var n := |tail| - 1;
      TailKeeps(c1, c2, tail[..n]);
      OneKeeps(Crc(c1, tail[..n]), Crc(c2, tail[..n]), tail[n]);
    }
  }

  /** Three bytes whose bits are, in order, a burst of errors: up to 16 in a row, `shift` places from the end. */
  predicate IsBurst(b0: bv8, b1: bv8, b2: bv8, bits: bv16, shift: bv24) {
    bits != 0 && shift <= 8 &&
    var d := (bits as bv24) << shift;
    b0 == (d >> 16) as bv8 && b1 == ((d >> 8) & 0xff) as bv8 && b2 == (d & 0xff) as bv8
  }

  lemma BurstRemains(b0: bv8, b1: bv8, b2: bv8, bits: bv16, shift: bv24)
    requires IsBurst(b0, b1, b2, bits, shift)
    ensures Bitwise(Bitwise(Bitwise(0, b0), b1), b2) != 0
  {
  }

  /** What three bytes make of a register, and of one that got other bytes. */
  lemma ThreeDiffer(c: bv16, x0: bv8, x1: bv8, x2: bv8, y0: bv8, y1: bv8, y2: bv8)
    ensures Xor(Bitwise(Bitwise(Bitwise(c, x0), x1), x2), Bitwise(Bitwise(Bitwise(c, y0), y1), y2))
            == Bitwise(Bitwise(Bitwise(0, x0 ^ y0), x1 ^ y1), x2 ^ y2)
  {
    hide Bitwise, Xor;
    Neutral(c);
    var u, v := Bitwise(c, x0), Bitwise(c, y0);
    Linear(c, x0, c, y0);
    Linear(u, x1, v, y1);
    Linear(Bitwise(u, x1), x2, Bitwise(v, y1), y2);
  }

  /** The wrong bits of x and y, at most three bytes long, padded with zero bytes in front. */
  function Wrong(x: seq<bv8>, y: seq<bv8>, i: nat): bv8
    requires |x| == |y| <= 3 && i < 3
  {
    var k := |x| - 3 + i;
    if k < 0 then 0 else x[k] ^ y[k]
  }

  lemma FewDiffer(c: bv16, x: seq<bv8>, y: seq<bv8>)
    requires |x| == |y| && 1 <= |x| <= 3
    ensures Xor(Crc(c, x), Crc(c, y)) == Bitwise(Bitwise(Bitwise(0, Wrong(x, y, 0)), Wrong(x, y, 1)), Wrong(x, y, 2))
  {
    hide Bitwise, Xor;
    if |x| == 1 {
      assert x == [x[0]] && y == [y[0]];
      OneDiffers(c, x[0], y[0]);
    } else if |x| == 2 {
      assert x == [x[0], x[1]] && y == [y[0], y[1]];
      TwoDiffer(c, x[0], x[1], y[0], y[1]);
    } else {
      assert x == [x[0], x[1], x[2]] && y == [y[0], y[1], y[2]];
      CrcThree(c, x[0], x[1], x[2]);
      CrcThree(c, y[0], y[1], y[2]);
      ThreeDiffer(c, x[0], x[1], x[2], y[0], y[1], y[2]);
    }
  }

  lemma OneDiffers(c: bv16, x: bv8, y: bv8)
    ensures Xor(Crc(c, [x]), Crc(c, [y])) == Bitwise(Bitwise(Bitwise(0, 0), 0), x ^ y)
  {
    hide Bitwise, Xor;
    NothingHidden(0);
    Neutral(c);
    Linear(c, x, c, y);
    CrcOne(c, x);
    CrcOne(c, y);
  }

  lemma TwoDiffer(c: bv16, x0: bv8, x1: bv8, y0: bv8, y1: bv8)
    ensures Xor(Crc(c, [x0, x1]), Crc(c, [y0, y1])) == Bitwise(Bitwise(Bitwise(0, 0), x0 ^ y0), x1 ^ y1)
  {
    hide Bitwise, Xor;
    NothingHidden(0);
    Neutral(c);
    Linear(c, x0, c, y0);
    Linear(Bitwise(c, x0), x1, Bitwise(c, y0), y1);
    CrcThree(c, x0, x1, 0);
    CrcThree(c, y0, y1, 0);
  }

  lemma CrcOne(c: bv16, x: bv8)
    ensures Crc(c, [x]) == Bitwise(c, x)
  {
    hide Bitwise;
    assert [x][..0] == [];
    assert Crc(c, []) == c;
  }

  /** Any burst of at most 16 wrong bits, anywhere in a message of any length, changes the CRC: x and y are the bytes
      the burst is in, three of them, or all there are. */
  lemma BurstDetected(before: seq<bv8>, x: seq<bv8>, y: seq<bv8>, after: seq<bv8>, bits: bv16, shift: bv24)
    requires |x| == |y| && 1 <= |x| <= 3 && IsBurst(Wrong(x, y, 0), Wrong(x, y, 1), Wrong(x, y, 2), bits, shift)
    ensures Crc(0xffff, before + x + after) != Crc(0xffff, before + y + after)
  {
    hide Bitwise, Xor, IsBurst, Wrong;
    var c := Crc(0xffff, before);
    FewDiffer(c, x, y);
    BurstRemains(Wrong(x, y, 0), Wrong(x, y, 1), Wrong(x, y, 2), bits, shift);
    SameIff(Crc(c, x), Crc(c, y));
    CrcConcat(0xffff, before, x);
    CrcConcat(0xffff, before, y);
    CrcConcat(0xffff, before + x, after);
    CrcConcat(0xffff, before + y, after);
    TailKeeps(Crc(c, x), Crc(c, y), after);
  }
}
