/** The UTF-8 test used on audit lines is that of RFC 3629: a byte string passes
    exactly when it is the text of a sequence of characters. */
module Utf8Text {
  import opened Bytes
  import opened AuditTail

  /** A Unicode scalar value. */
  predicate Scalar(cp: nat) {
    cp < 0xD800 || 0xE000 <= cp < 0x11_0000
  }

  predicate AllScalar(cps: seq<nat>) {
    forall i :: 0 <= i < |cps| ==> Scalar(cps[i])
  }

  /** Section 3 of RFC 3629. */
  function EncodeChar(cp: nat): (s: bytes)
    requires Scalar(cp)
    ensures 1 <= |s| <= 4
  {
    if cp < 0x80 then [cp]
    else if cp < 0x800 then [0xC0 + cp / 64, 0x80 + cp % 64]
    else if cp < 0x1_0000 then [0xE0 + cp / 4096, 0x80 + cp / 64 % 64, 0x80 + cp % 64]
    else [0xF0 + cp / 262144, 0x80 + cp / 4096 % 64, 0x80 + cp / 64 % 64, 0x80 + cp % 64]
  }

  function Text(cps: seq<nat>): bytes
    requires AllScalar(cps)
  {
    if cps == [] then [] else EncodeChar(cps[0]) + Text(cps[1..])
  }

  lemma {:induction false} TwoBytes(cp: nat, s: bytes)
    requires 0x80 <= cp < 0x800 && EncodeChar(cp) <= s
    ensures CharLength(s) == 2
  {
    assert s[0] == 0xC0 + cp / 64 && s[1] == 0x80 + cp % 64;
  }

  lemma {:induction false} ThreeBytes(cp: nat, s: bytes)
    requires Scalar(cp) && 0x800 <= cp < 0x1_0000 && EncodeChar(cp) <= s
    ensures CharLength(s) == 3
  {
    assert s[0] == 0xE0 + cp / 4096 && s[1] == 0x80 + cp / 64 % 64 && s[2] == 0x80 + cp % 64;
    assert cp / 64 == cp / 4096 * 64 + cp / 64 % 64;
    assert Continues(s, 1, 3);
  }

  lemma {:induction false} FourBytes(cp: nat, s: bytes)
    requires Scalar(cp) && 0x1_0000 <= cp && EncodeChar(cp) <= s
    ensures CharLength(s) == 4
  {
    assert s[0] == 0xF0 + cp / 262144 && s[1] == 0x80 + cp / 4096 % 64;
    assert s[2] == 0x80 + cp / 64 % 64 && s[3] == 0x80 + cp % 64;
    assert cp / 4096 == cp / 262144 * 64 + cp / 4096 % 64;
    assert Continues(s, 1, 4);
  }

  lemma {:induction false} CharReads(cp: nat, s: bytes)
    requires Scalar(cp) && EncodeChar(cp) <= s
    ensures CharLength(s) == |EncodeChar(cp)|
  {
    hide CharLength, Continues;
    if cp < 0x80 {
      OneByte(cp, s);
    } else if cp < 0x800 {
      TwoBytes(cp, s);
    } else if cp < 0x1_0000 {
      ThreeBytes(cp, s);
    } else {
      FourBytes(cp, s);
    }
  }

  lemma {:induction false} OneByte(cp: nat, s: bytes)
    requires cp < 0x80 && EncodeChar(cp) <= s
    ensures CharLength(s) == 1
  {
  }

  /** Six bits at a time. */
  lemma {:induction false} Digit(high: nat, low: nat)
    requires low < 64
    ensures (high * 64 + low) / 64 == high && (high * 64 + low) % 64 == low
  {
  }

  lemma {:induction false} TwoAre(s: bytes) returns (cp: nat)
    requires s != [] && CharLength(s) == 2
    ensures Scalar(cp) && EncodeChar(cp) == s[..2]
  {
    assert Continues(s, 1, 2);
    var a: nat, b: nat := s[0] - 0xC0, s[1] - 0x80;
    cp := a * 64 + b;
    Digit(a, b);
  }

  lemma {:induction false} ThreeAre(s: bytes) returns (cp: nat)
    requires s != [] && CharLength(s) == 3
    ensures Scalar(cp) && EncodeChar(cp) == s[..3]
  {
    assert Continues(s, 1, 3);
    var a: nat, b: nat, c: nat := s[0] - 0xE0, s[1] - 0x80, s[2] - 0x80;
    var front := a * 64 + b;
    cp := front * 64 + c;
    Digit(a, b);
    Digit(front, c);
    assert cp / 4096 == cp / 64 / 64;
    assert 0x800 <= cp < 0x1_0000 && Scalar(cp);
  }

  lemma {:induction false} FourAre(s: bytes) returns (cp: nat)
    requires s != [] && CharLength(s) == 4
    ensures Scalar(cp) && EncodeChar(cp) == s[..4]
  {
    assert Continues(s, 1, 4);
    var a: nat, b: nat, c: nat, d: nat := s[0] - 0xF0, s[1] - 0x80, s[2] - 0x80, s[3] - 0x80;
    var front := a * 64 + b;
    var middle := front * 64 + c;
    cp := middle * 64 + d;
    Digit(a, b);
    Digit(front, c);
    Digit(middle, d);
    assert cp / 4096 == cp / 64 / 64 && cp / 262144 == cp / 4096 / 64;
    assert 0x1_0000 <= cp < 0x11_0000;
  }

  /** The character a string starts with. */
  lemma {:induction false} CharIs(s: bytes) returns (cp: nat)
    requires s != [] && CharLength(s) > 0
    ensures Scalar(cp) && EncodeChar(cp) == s[..CharLength(s)]
  {
    hide EncodeChar, Continues;
    CharShort(s);
    var n := CharLength(s);
    if n == 1 {
      cp := s[0];
      OneIs(s);
    } else if n == 2 {
      cp := TwoAre(s);
    } else if n == 3 {
      cp := ThreeAre(s);
    } else {
      cp := FourAre(s);
    }
  }

  lemma {:induction false} CharShort(s: bytes)
    requires s != []
    ensures CharLength(s) <= 4
  {
  }

  lemma {:induction false} OneIs(s: bytes)
    requires s != [] && CharLength(s) == 1
    ensures s[0] < 0x80 && EncodeChar(s[0]) == s[..1]
  {
  }

  lemma {:induction false} TextPasses(cps: seq<nat>)
    requires AllScalar(cps)
    ensures Utf8(Text(cps))
  {
    hide EncodeChar, CharLength;
    if cps != [] {
      var s, rest := Text(cps), Text(cps[1..]);
      CharReads(cps[0], s);
      assert s[|EncodeChar(cps[0])|..] == rest;
      TextPasses(cps[1..]);
    }
  }

  lemma {:induction false} PassingIsText(s: bytes) returns (cps: seq<nat>)
    requires Utf8(s)
    ensures AllScalar(cps) && Text(cps) == s
    decreases |s|
  {
    hide EncodeChar, CharLength;
    if s == [] {
      cps := [];
    } else {
      var n := CharLength(s);
      var cp := CharIs(s);
      var rest := PassingIsText(s[n..]);
      cps := [cp] + rest;
      assert cps[1..] == rest && s == s[..n] + s[n..];
    }
  }

  /** A byte string passes exactly when it is the text of some characters. */
  lemma {:induction false} Utf8Exact(s: bytes)
    ensures Utf8(s) <==> exists cps :: AllScalar(cps) && Text(cps) == s
  {
    hide Utf8, Text;
    if Utf8(s) {
      var cps := PassingIsText(s);
    }
    if cps :| AllScalar(cps) && Text(cps) == s {
      TextPasses(cps);
    }
  }
}
