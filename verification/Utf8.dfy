/** The names that the decoder takes for UTF-8 are exactly the encodings of Unicode scalar values. */
module Utf8 {
  import opened Bytes
  import opened Terms

  /** A code point that is no surrogate. */
  predicate Scalar(c: nat) {
    c < 0xD800 || 0xE000 <= c < 0x11_0000
  }

  /** One character as section 3 of RFC 3629 encodes it: six bits in every byte but the first. */
  function Character(c: nat): (s: bytes)
    requires Scalar(c)
    ensures s != []
  {
    if c < 0x80 then [c as byte]
    else if c < 0x800 then [(0xC0 + c / 64) as byte, (0x80 + c % 64) as byte]
    else if c < 0x1_0000 then
      [(0xE0 + c / 4096) as byte, (0x80 + c / 64 % 64) as byte, (0x80 + c % 64) as byte]
    else
      [(0xF0 + c / 0x4_0000) as byte, (0x80 + c / 4096 % 64) as byte,
       (0x80 + c / 64 % 64) as byte, (0x80 + c % 64) as byte]
  }

  function Text(cs: seq<nat>): bytes
    requires forall k :: 0 <= k < |cs| ==> Scalar(cs[k])
  {
    if cs == [] then [] else Character(cs[0]) + Text(cs[1..])
  }

  // From characters to bytes

  lemma One(s: bytes, need: nat, low: int, high: int)
    requires s != [] && need > 0
    ensures Utf8From(s, need, low, high) <==> low <= s[0] < high && Utf8From(s[1..], need - 1, 0x80, 0xC0)
  {
  }

  lemma Lead(s: bytes)
    requires s != []
    ensures var (more, lo, hi) := Utf8Lead(s[0]);
            ValidUtf8(s) <==> more >= 0 && Utf8From(s[1..], more, lo, hi)
  {
  }

  /** Up to three bytes behind a lead byte. */
  lemma Following(s: bytes, more: nat, lo: int, hi: int)
    requires |s| >= more && 0 < more <= 3
    ensures Utf8From(s, more, lo, hi)
       <==> lo <= s[0] < hi && (more > 1 ==> 0x80 <= s[1] < 0xC0) && (more > 2 ==> 0x80 <= s[2] < 0xC0)
            && ValidUtf8(s[more..])
  {
    hide Utf8From;
    One(s, more, lo, hi);
    if more == 1 {
      Fresh(s[1..], lo, hi);
    } else {
      One(s[1..], more - 1, 0x80, 0xC0);
      assert s[1..][1..] == s[2..];
      if more == 3 {
        One(s[2..], 1, 0x80, 0xC0);
        assert s[2..][1..] == s[3..];
      }
    }
  }

  /** Between characters the range of the next byte is of no account. */
  lemma Fresh(s: bytes, lo: int, hi: int)
    ensures Utf8From(s, 0, lo, hi) <==> ValidUtf8(s)
  {
  }

  lemma CharacterRead(c: nat, rest: bytes)
    requires Scalar(c)
    ensures ValidUtf8(Character(c) + rest) <==> ValidUtf8(rest)
  {
    hide Utf8From;
    var x := Character(c);
    var s := x + rest;
    Lead(s);
    Ranges(c);
    assert s[1..] == x[1..] + rest && s[|x|..] == rest;
    if |x| == 1 {
      Fresh(s[1..], 0x80, 0xC0);
    } else {
      var (more, lo, hi) := Utf8Lead(s[0]);
      Following(s[1..], more, lo, hi);
      assert s[1..][more..] == rest;
    }
  }

  /** The bytes that may follow a lead byte. */
  predicate Whole(x: bytes) {
    && 0 < |x| <= 4
    && var (more, lo, hi) := Utf8Lead(x[0]);
       && more == |x| - 1 && (|x| > 1 ==> lo <= x[1] < hi)
       && (|x| > 2 ==> 0x80 <= x[2] < 0xC0) && (|x| > 3 ==> 0x80 <= x[3] < 0xC0)
  }

  /** The bytes of a character are in the ranges that its lead byte allows. */
  lemma Ranges(c: nat)
    requires Scalar(c)
    ensures Whole(Character(c))
  {
  }

  lemma {:induction false} TextIsValid(cs: seq<nat>)
    requires forall k :: 0 <= k < |cs| ==> Scalar(cs[k])
    ensures ValidUtf8(Text(cs))
  {
    hide Character, ValidUtf8;
    if cs == [] {
      NothingIsValid();
    } else {
      TextIsValid(cs[1..]);
      CharacterRead(cs[0], Text(cs[1..]));
    }
  }

  lemma NothingIsValid()
    ensures ValidUtf8([])
  {
  }

  // From bytes to characters

  /** The code point whose bytes these are. */
  function Decoded(x: bytes): int
    requires 0 < |x| <= 4
  {
    var n := seq(|x|, k requires 0 <= k < |x| => x[k] as int);
    if |n| == 1 then n[0]
    else if |n| == 2 then (n[0] - 0xC0) * 64 + (n[1] - 0x80)
    else if |n| == 3 then ((n[0] - 0xE0) * 64 + (n[1] - 0x80)) * 64 + (n[2] - 0x80)
    else (((n[0] - 0xF0) * 64 + (n[1] - 0x80)) * 64 + (n[2] - 0x80)) * 64 + (n[3] - 0x80)
  }

  lemma DecodedCharacter(x: bytes)
    requires Whole(x)
    ensures Decoded(x) >= 0 && Scalar(Decoded(x)) && Character(Decoded(x)) == x
  {
    hide Character, Scalar, Decoded, Utf8Lead;
    if |x| <= 2 {
      ShortDecoded(x);
    } else if |x| == 3 {
      ThreeDecoded(x);
    } else {
      FourDecoded(x);
    }
  }

  lemma ShortDecoded(x: bytes)
    requires Whole(x) && |x| <= 2
    ensures Decoded(x) >= 0 && Scalar(Decoded(x)) && Character(Decoded(x)) == x
  {
    if |x| == 2 {
      SixBits(x[0] as int - 0xC0, x[1] as int - 0x80);
    }
  }

  lemma ThreeDecoded(x: bytes)
    requires Whole(x) && |x| == 3
    ensures Decoded(x) >= 0 && Scalar(Decoded(x)) && Character(Decoded(x)) == x
  {
    var a, b, c := x[0] as int - 0xE0, x[1] as int - 0x80, x[2] as int - 0x80;
    Shifts(Decoded(x));
    SixBits(a, b);
    SixBits(a * 64 + b, c);
  }

  lemma FourDecoded(x: bytes)
    requires Whole(x) && |x| == 4
    ensures Decoded(x) >= 0 && Scalar(Decoded(x)) && Character(Decoded(x)) == x
  {
    var a, b, c, d := x[0] as int - 0xF0, x[1] as int - 0x80, x[2] as int - 0x80, x[3] as int - 0x80;
    var n := Decoded(x);
    assert n == ((a * 64 + b) * 64 + c) * 64 + d;
    Shifts(n);
    SixBits(a, b);
    SixBits(a * 64 + b, c);
    SixBits((a * 64 + b) * 64 + c, d);
    assert 0x1_0000 <= n < 0x11_0000;
  }

  lemma SixBits(a: int, b: int)
    requires 0 <= b < 64
    ensures (a * 64 + b) / 64 == a && (a * 64 + b) % 64 == b
  {
  }

  lemma Shifts(n: int)
    ensures n / 4096 == n / 64 / 64 && n / 0x4_0000 == n / 64 / 64 / 64
  {
  }

  lemma CharacterDecoded(c: nat)
    requires Scalar(c)
    ensures Decoded(Character(c)) == c
  {
    Shifts(c);
    assert c == c / 64 * 64 + c % 64;
    assert c / 64 == c / 64 / 64 * 64 + c / 64 % 64;
    assert c / 64 / 64 == c / 64 / 64 / 64 * 64 + c / 64 / 64 % 64;
  }

  /** The first character of a valid string. */
  lemma FirstCharacter(s: bytes) returns (c: nat)
    requires s != [] && ValidUtf8(s)
    ensures Scalar(c) && |Character(c)| <= |s| && s[..|Character(c)|] == Character(c)
    ensures ValidUtf8(s[|Character(c)|..])
  {
    hide Utf8From;
    Lead(s);
    var (more, lo, hi) := Utf8Lead(s[0]);
    if more == 0 {
      Fresh(s[1..], lo, hi);
    } else {
      Long(s[1..], more, lo, hi);
      Following(s[1..], more, lo, hi);
      assert s[1..][more..] == s[more + 1..];
    }
    var x := s[..more + 1];
    DecodedCharacter(x);
    c := Decoded(x);
  }

  lemma {:induction false} Long(s: bytes, need: nat, low: int, high: int)
    requires Utf8From(s, need, low, high)
    ensures |s| >= need
    decreases need
  {
    if need > 0 && s != [] {
      Long(s[1..], need - 1, 0x80, 0xC0);
    }
  }

  /**
   * A name is valid UTF-8 exactly when it is a sequence of scalar values in their encodings: no longer
   * form of a character is, nor a surrogate, nor anything behind 0x10FFFF.
   */
  lemma {:induction false} ValidExactly(s: bytes)
    ensures ValidUtf8(s) <==> exists cs :: (forall k :: 0 <= k < |cs| ==> Scalar(cs[k])) && s == Text(cs)
    decreases |s|
  {
    hide Character, ValidUtf8;
    if ValidUtf8(s) {
      var cs := Characters(s);
    }
    forall cs | (forall k :: 0 <= k < |cs| ==> Scalar(cs[k])) && s == Text(cs)
      ensures ValidUtf8(s)
    {
      TextIsValid(cs);
    }
  }

  lemma {:induction false} Characters(s: bytes) returns (cs: seq<nat>)
    requires ValidUtf8(s)
    ensures (forall k :: 0 <= k < |cs| ==> Scalar(cs[k])) && s == Text(cs)
    decreases |s|
  {
    hide Character, ValidUtf8;
    if s == [] {
      cs := [];
    } else {
      var c := FirstCharacter(s);
      var rest := Characters(s[|Character(c)|..]);
      cs := [c] + rest;
      assert cs[1..] == rest && s == s[..|Character(c)|] + s[|Character(c)|..];
    }
  }

  /** A string of scalar values has one reading. */
  lemma {:induction false} TextInjective(a: seq<nat>, b: seq<nat>)
    requires (forall k :: 0 <= k < |a| ==> Scalar(a[k])) && (forall k :: 0 <= k < |b| ==> Scalar(b[k]))
    requires Text(a) == Text(b)
    ensures a == b
  {
    hide Character;
    if a != [] && b != [] {
      CharacterPrefix(a[0], Text(a[1..]), b[0], Text(b[1..]));
      TextInjective(a[1..], b[1..]);
      assert a == [a[0]] + a[1..] && b == [b[0]] + b[1..];
    }
  }

  lemma CharacterPrefix(c: nat, x: bytes, d: nat, y: bytes)
    requires Scalar(c) && Scalar(d) && Character(c) + x == Character(d) + y
    ensures c == d && x == y
  {
    var s := Character(c) + x;
    Ranges(c);
    Ranges(d);
    assert s[0] == Character(c)[0] == Character(d)[0];
    assert s[..|Character(c)|] == Character(c) && s[..|Character(d)|] == Character(d);
    assert s[|Character(c)|..] == x && s[|Character(d)|..] == y;
    CharacterDecoded(c);
    CharacterDecoded(d);
  }
}
