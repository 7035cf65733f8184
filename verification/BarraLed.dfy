/**
 The error tolerant bar code of BarraLed.h: a number is sent as that many nibbles of ones, then zeros.
 */
module BarraLed {

  const THRESHOLD := 6

  // ---------------------------------------------------------------- the code on nibbles

  /** The bits of nibble i in its byte; the high nibble comes first. */
  function Mask(i: nat): bv8 {
    if i % 2 == 1 then 0x0f else 0xf0
  }

  /** What the code looks at in a nibble: 15 when it is all ones, 0 when it is zero, 1 for anything else. */
  function Nibble(packet: seq<bv8>, i: nat): nat
    requires i < 2 * |packet|
  {
    if packet[i / 2] & Mask(i) == Mask(i) then 15 else if packet[i / 2] & Mask(i) == 0 then 0 else 1
  }

  function Nibbles(packet: seq<bv8>): (s: seq<nat>)
    ensures |s| == 2 * |packet|
  {
    seq(2 * |packet|, i requires 0 <= i < 2 * |packet| => Nibble(packet, i))
  }

  lemma NibbleIs(packet: seq<bv8>, i: nat)
    requires i < 2 * |packet|
    ensures NotFull(Nibbles(packet), i) <==> packet[i / 2] & Mask(i) != Mask(i)
    ensures NotEmpty(Nibbles(packet), i) <==> packet[i / 2] & Mask(i) != 0
  {
  }

  /** n nibbles of ones. */
  predicate IsBar(s: seq<nat>, n: int) {
    forall i :: 0 <= i < |s| ==> s[i] == if i < n then 15 else 0
  }

  /** Whether nibble i is not all ones; nibbles behind the end count as different. */
  predicate NotFull(s: seq<nat>, i: nat) {
    i >= |s| || s[i] != 15
  }

  /** Whether nibble i is not zero; nibbles before the start count as different. */
  predicate NotEmpty(s: seq<nat>, i: int) {
    i < 0 || (i < |s| && s[i] != 0)
  }

  /** The first place from i on where two nibbles in a row are not all ones. */
  function FullEnd(s: seq<nat>, i: nat): (k: nat)
    requires i <= |s|
    ensures i <= k <= |s| && NotFull(s, k) && NotFull(s, k + 1)
    ensures forall j :: i <= j < k ==> !(NotFull(s, j) && NotFull(s, j + 1))
    decreases |s| - i
  {
    if NotFull(s, i) && NotFull(s, i + 1) then i else FullEnd(s, i + 1)
  }

  /** The last place up to i where two nibbles in a row are not zero. */
  function EmptyEnd(s: seq<nat>, i: int): (k: int)
    requires -1 <= i < |s|
    ensures -1 <= k <= i && NotEmpty(s, k) && NotEmpty(s, k - 1)
    ensures forall j :: k < j <= i ==> !(NotEmpty(s, j) && NotEmpty(s, j - 1))
    decreases i
  {
    if NotEmpty(s, i) && NotEmpty(s, i - 1) then i else EmptyEnd(s, i - 1)
  }

  /** Division that truncates, by two. */
  function Half(x: int): int {
    if x >= 0 then x / 2 else -(-x / 2)
  }

  /** Both ends of the bar, and the number in between; false when they are too far apart. */
  function Decoded(s: seq<nat>): (int, bool) {
    var fromLeft, fromRight := FullEnd(s, 0) - 1, EmptyEnd(s, |s| - 1) + 1;
    if fromRight - fromLeft > THRESHOLD then (0, false) else (Half(fromLeft + fromRight + 1), true)
  }

  /** s and t differ in nibble c at most. */
  predicate DifferAt(s: seq<nat>, t: seq<nat>, c: nat) {
    |s| == |t| && forall i :: 0 <= i < |s| && i != c ==> s[i] == t[i]
  }

  lemma FullEndIs(s: seq<nat>, k: nat)
    requires k <= |s| && NotFull(s, k) && NotFull(s, k + 1)
    requires forall j :: 0 <= j < k ==> !(NotFull(s, j) && NotFull(s, j + 1))
    ensures FullEnd(s, 0) == k
  {
  }

  lemma EmptyEndIs(s: seq<nat>, k: int)
    requires -1 <= k < |s| && NotEmpty(s, k) && NotEmpty(s, k - 1)
    requires forall j :: k < j < |s| ==> !(NotEmpty(s, j) && NotEmpty(s, j - 1))
    ensures EmptyEnd(s, |s| - 1) == k
  {
  }

  /** Where the scan from the left ends when nibble c of a bar was changed to v. */
  function LeftOfDamaged(n: int, c: int, v: nat): int {
    if c == n - 1 && v != 15 then n - 1
    else if c == n && v == 15 then n + 1
    else if c == n + 1 && v == 15 then n + 2
    else n
  }

  /** Where the scan from the right ends. */
  function RightOfDamaged(n: int, c: int, v: nat): int {
    if c == n && v != 0 then n
    else if c == n - 1 && v == 0 then n - 2
    else if c == n - 2 && v == 0 then n - 3
    else n - 1
  }

  lemma DamagedEnds(s: seq<nat>, t: seq<nat>, n: nat, c: nat)
    requires n <= |s| && c < |s| && IsBar(s, n) && DifferAt(s, t, c)
    ensures FullEnd(t, 0) == LeftOfDamaged(n, c, t[c])
    ensures EmptyEnd(t, |t| - 1) == RightOfDamaged(n, c, t[c])
  {
    assert forall i :: 0 <= i < |t| && i != c ==> t[i] == if i < n then 15 else 0;
    FullEndIs(t, LeftOfDamaged(n, c, t[c]));
    EmptyEndIs(t, RightOfDamaged(n, c, t[c]));
  }

  /** A bar is read as its length; with any one nibble changed to anything it is read as that or one off. */
  lemma DecodedDamaged(s: seq<nat>, t: seq<nat>, n: nat, c: nat)
    requires n <= |s| && c < |s| && IsBar(s, n) && DifferAt(s, t, c)
    ensures Decoded(s) == (n, true)
    ensures Decoded(t).1 && n - 1 <= Decoded(t).0 <= n + 1
  {
    DamagedEnds(s, t, n, c);
    DamagedEnds(s, s, n, c);
  }

  /** Anything else is rejected exactly when, somewhere, two nibbles in a row that are not zero lie more than
      THRESHOLD - 2 nibbles behind two in a row that are not all ones; otherwise it is read as the middle between the
      first of these and the last of those. */
  lemma DecodedIff(s: seq<nat>, l: nat, r: int)
    requires l <= |s| && NotFull(s, l) && NotFull(s, l + 1) && -1 <= r < |s| && NotEmpty(s, r) && NotEmpty(s, r - 1)
    requires forall j :: 0 <= j < l ==> !(NotFull(s, j) && NotFull(s, j + 1))
    requires forall j :: r < j < |s| ==> !(NotEmpty(s, j) && NotEmpty(s, j - 1))
    ensures Decoded(s).1 <==>
              forall i: nat, j :: NotFull(s, i) && NotFull(s, i + 1) && j < |s| && NotEmpty(s, j) && NotEmpty(s, j - 1)
                ==> j - i <= 4
    ensures Decoded(s).1 ==> l + r <= 2 * Decoded(s).0 <= l + r + 1
    ensures !Decoded(s).1 ==> Decoded(s).0 == 0
  {
    FullEndIs(s, l);
    EmptyEndIs(s, r);
    if r - l <= 4 {
      forall i: nat, j | NotFull(s, i) && NotFull(s, i + 1) && j < |s| && NotEmpty(s, j) && NotEmpty(s, j - 1)
        ensures j - i <= 4
      {
        assert i >= l && j <= r;
      }
    }
  }

  // ---------------------------------------------------------------- packets

  function Clamp(num: int, n: nat): nat {
    if num < 0 then 0 else if num > 2 * n then 2 * n else num
  }

  /** Only bits of nibble c are different. */
  ghost predicate DamagedAt(s: seq<bv8>, t: seq<bv8>, c: nat)
    requires c < 2 * |s|
  {
    |s| == |t| && forall k :: 0 <= k < |s| ==>
                      if k == c / 2 then s[k] & Mask(c + 1) == t[k] & Mask(c + 1) else s[k] == t[k]
  }

  lemma DamagedNibbles(s: seq<bv8>, t: seq<bv8>, c: nat)
    requires c < 2 * |s| && DamagedAt(s, t, c)
    ensures DifferAt(Nibbles(s), Nibbles(t), c)
  {
  }

  /** Every number from 0 to twice the length of the packet is decoded as itself, and after any change to one nibble
      as itself or one of its neighbours. */
  lemma DecodeCorrects(s: seq<bv8>, t: seq<bv8>, n: nat, c: nat)
    requires n <= 2 * |s| && c < 2 * |s| && IsBar(Nibbles(s), n) && DamagedAt(s, t, c)
    ensures Decoded(Nibbles(s)) == (n, true)
    ensures Decoded(Nibbles(t)).1 && n - 1 <= Decoded(Nibbles(t)).0 <= n + 1
  {
    DamagedNibbles(s, t, c);
    DecodedDamaged(Nibbles(s), Nibbles(t), n, c);
  }

  /** In bytes: n / 2 of them are 0xff, then comes 0xf0 if n is odd, and the others are zero. */
  ghost predicate IsBarInBytes(packet: seq<bv8>, n: nat) {
    forall k :: 0 <= k < |packet| ==>
      packet[k] == if k < n / 2 then 0xff else if k == n / 2 && n % 2 == 1 then 0xf0 else 0
  }

  lemma BarBytesIff(packet: seq<bv8>, n: nat)
    ensures IsBar(Nibbles(packet), n) <==> IsBarInBytes(packet, n)
  {
    if IsBar(Nibbles(packet), n) {
      forall k | 0 <= k < |packet|
        ensures packet[k] == if k < n / 2 then 0xff else if k == n / 2 && n % 2 == 1 then 0xf0 else 0
      {
        assert Nibbles(packet)[2 * k] == Nibble(packet, 2 * k)
               && Nibbles(packet)[2 * k + 1] == Nibble(packet, 2 * k + 1);
        ByteIs(packet[k]);
      }
    }
    if IsBarInBytes(packet, n) {
      forall i | 0 <= i < 2 * |packet| ensures Nibbles(packet)[i] == if i < n then 15 else 0 {
        ByteIs(packet[i / 2]);
      }
    }
  }

  lemma ByteIs(b: bv8)
    ensures b & 0xf0 == 0xf0 && b & 0x0f == 0x0f <==> b == 0xff
    ensures b & 0xf0 == 0xf0 && b & 0x0f == 0 <==> b == 0xf0
    ensures b & 0xf0 == 0 && b & 0x0f == 0 <==> b == 0
  {
  }

  /** A number that does not fit is sent as the closest one that does. */
  lemma ClampClosest(num: int, n: nat, k: nat)
    requires k <= 2 * n
    ensures Clamp(num, n) <= 2 * n
    ensures (Clamp(num, n) - num) * (Clamp(num, n) - num) <= (k - num) * (k - num)
  {
    if num < 0 {
      assert (k - num) * (k - num) >= num * num by { assert k * (k - 2 * num) >= 0; }
    } else if num > 2 * n {
      var a, b := num - 2 * n, 2 * n - k;
      assert (k - num) * (k - num) == a * a + b * (b + 2 * a);
    } else {
      assert (k - num) * (k - num) >= 0;
    }
  }

  class BarraLed {
    const packet: array<bv8>

    constructor (n: nat)
      requires n >= 1
      ensures packet.Length == n && fresh(packet)
    {
      packet := new bv8[n];
    }

    method Encode(num0: int)
      requires packet.Length >= 1
      modifies packet
      ensures IsBar(Nibbles(packet[..]), Clamp(num0, packet.Length))
    {
      var num := Clamp(num0, packet.Length);
      forall i | 0 <= i < packet.Length {
        packet[i] := 0;
      }
      for i := 0 to num / 2
        invariant forall k :: 0 <= k < packet.Length ==> packet[k] == if k < i then 0xff else 0
      {
        packet[i] := 0xff;
      }
      if num % 2 == 1 {
        packet[num / 2] := 0xf0;
      }
      forall i | 0 <= i < 2 * packet.Length ensures Nibble(packet[..], i) == if i < num then 15 else 0 {
        assert (0xff as bv8) & 0x0f == 0x0f && (0xff as bv8) & 0xf0 == 0xf0 && (0xf0 as bv8) & 0x0f == 0;
      }
    }

    method Decode() returns (num: int, ok: bool)
      requires packet.Length >= 1
      ensures (num, ok) == Decoded(Nibbles(packet[..]))
    {
      var fromLeft := FromLeft();
      var fromRight := FromRight();
      if fromRight - fromLeft > THRESHOLD {
        return 0, false;
      }
      return Half(fromLeft + fromRight + 1), true;
    }

    method FromLeft() returns (fromLeft: int)
      requires packet.Length >= 1
      ensures fromLeft == FullEnd(Nibbles(packet[..]), 0) - 1
    {
      hide Nibble, Nibbles, FullEnd;
      ghost var s := Nibbles(packet[..]);
      fromLeft := 2 * packet.Length - 1;
      var twoInaRow := false;
      var i := 0;
      while i < 2 * packet.Length
        invariant i <= 2 * packet.Length && fromLeft == 2 * packet.Length - 1
        invariant twoInaRow == (i > 0 && NotFull(s, i - 1))
        invariant forall j :: 0 <= j < i - 1 ==> !(NotFull(s, j) && NotFull(s, j + 1))
      {
        NibbleIs(packet[..], i);
        var mask := if i % 2 == 1 then 0x0f else 0xf0;
        if packet[i / 2] & mask != mask {
          if twoInaRow {
            fromLeft := i - 2;
            FullEndIs(s, i - 1);
            return;
          }
          twoInaRow := true;
        } else {
          twoInaRow := false;
        }
        i := i + 1;
      }
      if twoInaRow {
        fromLeft := fromLeft - 1;
        FullEndIs(s, |s| - 1);
      } else {
        FullEndIs(s, |s|);
      }
    }

    method FromRight() returns (fromRight: int)
      requires packet.Length >= 1
      ensures fromRight == EmptyEnd(Nibbles(packet[..]), 2 * packet.Length - 1) + 1
    {
      hide Nibble, Nibbles, EmptyEnd;
      ghost var s := Nibbles(packet[..]);
      fromRight := 0;
      var twoInaRow := false;
      var i := 2 * packet.Length - 1;
      while i >= 0
        invariant -1 <= i < 2 * packet.Length && fromRight == 0
        invariant twoInaRow == (i < 2 * packet.Length - 1 && NotEmpty(s, i + 1))
        invariant forall j :: i + 1 < j < |s| ==> !(NotEmpty(s, j) && NotEmpty(s, j - 1))
      {
        NibbleIs(packet[..], i);
        var mask := if i % 2 == 1 then 0x0f else 0xf0;
        if packet[i / 2] & mask != 0x00 {
          if twoInaRow {
            fromRight := i + 2;
            EmptyEndIs(s, i + 1);
            return;
          }
          twoInaRow := true;
        } else {
          twoInaRow := false;
        }
        i := i - 1;
      }
      if twoInaRow {
        fromRight := fromRight + 1;
        EmptyEndIs(s, 0);
      } else {
        EmptyEndIs(s, -1);
      }
    }
  }
}
